/** The parts of java.lang.String and java.lang.Integer that the table
    application relies on to read its input lines: `trim()`, `split("x")`
    and `Integer.parseInt`. */
module JavaText {
  import opened Wrappers

  // ---------------------------------------------------------------------------
  // String.trim()
  // ---------------------------------------------------------------------------

  /** `trim()` removes every character whose code is at most U+0020. */
  predicate IsBlank(c: char) {
    c <= ' '
  }

  predicate AllBlank(s: string) {
    forall k :: 0 <= k < |s| ==> IsBlank(s[k])
  }

  /** What `trim()` leaves: nothing blank at either end. */
  predicate IsTrimmed(s: string) {
    |s| == 0 || (!IsBlank(s[0]) && !IsBlank(s[|s| - 1]))
  }

  /** The number of blanks at the front of `s`. */
  function LeadingBlanks(s: string): (n: nat)
    ensures n <= |s|
    ensures AllBlank(s[..n])
    ensures n < |s| ==> !IsBlank(s[n])
  {
    if |s| > 0 && IsBlank(s[0]) then
      var n := 1 + LeadingBlanks(s[1..]);
      assert s[..n] == [s[0]] + s[1..][..n - 1];
      n
    else 0
  }

  /** The number of blanks at the back of `s`. */
  function TrailingBlanks(s: string): (n: nat)
    ensures n <= |s|
    ensures AllBlank(s[|s| - n..])
    ensures n < |s| ==> !IsBlank(s[|s| - n - 1])
  {
    if |s| > 0 && IsBlank(s[|s| - 1]) then
      var n := 1 + TrailingBlanks(s[..|s| - 1]);
      assert s[|s| - n..] == s[..|s| - 1][|s| - n..] + [s[|s| - 1]];
      n
    else 0
  }

  /** `String.trim()`: the slice of `s` between its leading and trailing blanks. */
  function Trim(s: string): (r: string)
    ensures IsTrimmed(r)
    ensures |r| <= |s|
  {
    var a := LeadingBlanks(s);
    var rest := s[a..];
    var b := a + (|rest| - TrailingBlanks(rest));
    s[a..b]
  }

  /** Trimming removes blanks only: the result is a slice of `s` with
      nothing but blanks on either side of it. */
  lemma TrimSlice(s: string)
    ensures exists a, b :: 0 <= a <= b <= |s| && Trim(s) == s[a..b] && AllBlank(s[..a]) && AllBlank(s[b..])
  {
    var a := LeadingBlanks(s);
    var rest := s[a..];
    var b := a + (|rest| - TrailingBlanks(rest));
    assert rest[|rest| - TrailingBlanks(rest)..] == s[b..];
    assert Trim(s) == s[a..b];
  }

  lemma {:induction false} LeadingBlanksOfPadded(a: string, r: string)
    requires AllBlank(a)
    requires |r| == 0 || !IsBlank(r[0])
    ensures LeadingBlanks(a + r) == |a|
    decreases |a|
  {
    if |a| > 0 {
      assert (a + r)[1..] == a[1..] + r;
      LeadingBlanksOfPadded(a[1..], r);
    }
  }

  lemma {:induction false} TrailingBlanksOfPadded(r: string, b: string)
    requires AllBlank(b)
    requires |r| == 0 || !IsBlank(r[|r| - 1])
    ensures TrailingBlanks(r + b) == |b|
    decreases |b|
  {
    if |b| > 0 {
      assert (r + b)[..|r + b| - 1] == r + b[..|b| - 1];
      TrailingBlanksOfPadded(r, b[..|b| - 1]);
    }
  }

  /** Padding a trimmed string with blanks on either side does not change
      what `trim()` returns: the result of `Trim` is determined by its input's
      non-blank core. */
  lemma TrimOfPadded(a: string, s: string, b: string)
    requires AllBlank(a) && AllBlank(b) && IsTrimmed(s)
    ensures Trim(a + s + b) == s
  {
    var t := a + s + b;
    if |s| == 0 {
      assert t == a + b;
      LeadingBlanksOfPadded(a + b, "");
      assert a + b + "" == a + b;
    } else {
      assert t == a + (s + b);
      LeadingBlanksOfPadded(a, s + b);
      assert t[|a|..] == s + b;
      TrailingBlanksOfPadded(s, b);
    }
  }

  /** A string with no blank at either end is its own trim. */
  lemma TrimOfTrimmed(s: string)
    requires IsTrimmed(s)
    ensures Trim(s) == s
  {
    TrimOfPadded("", s, "");
    assert "" + s + "" == s;
  }

  /** `trim()` is idempotent. */
  lemma TrimIdempotent(s: string)
    ensures Trim(Trim(s)) == Trim(s)
  {
    TrimOfTrimmed(Trim(s));
  }

  // ---------------------------------------------------------------------------
  // String.split("x")
  // ---------------------------------------------------------------------------

  /** The separator both input formats ("RxC") split on. */
  const Separator: char := 'x'

  /** Every piece of `s` between separators, empty pieces included:
      a string with n separators has n + 1 pieces. */
  function SplitAll(s: string): (r: seq<string>)
    ensures |r| >= 1
    ensures forall k :: 0 <= k < |r| ==> Separator !in r[k]
  {
    if |s| == 0 then [""]
    else
      var tail := SplitAll(s[1..]);
      if s[0] == Separator then [""] + tail
      else [[s[0]] + tail[0]] + tail[1..]
  }

  /** The pieces glued back together with the separator between them. */
  function Join(ts: seq<string>): (s: string)
    requires |ts| >= 1
  {
    if |ts| == 1 then ts[0] else ts[0] + [Separator] + Join(ts[1..])
  }

  /** `n` copies of the separator. */
  function Separators(n: nat): (s: string)
    ensures |s| == n && forall k :: 0 <= k < n ==> s[k] == Separator
  {
    if n == 0 then [] else [Separator] + Separators(n - 1)
  }

  /** Java's `split` with limit 0 discards the empty pieces at the end. */
  function DropTrailingEmpty(ts: seq<string>): (r: seq<string>)
    ensures |r| <= |ts| && r == ts[..|r|]
    ensures forall k :: |r| <= k < |ts| ==> ts[k] == ""
    ensures |r| == 0 || r[|r| - 1] != ""
  {
    if |ts| > 0 && ts[|ts| - 1] == "" then DropTrailingEmpty(ts[..|ts| - 1]) else ts
  }

  /** `s.split("x")`: when there is no separator the whole string is the only
      piece (even when it is empty); otherwise every piece, with the empty
      pieces at the end dropped. A leading empty piece is kept. So no piece
      holds the separator, and a line with one never ends in an empty piece. */
  function SplitX(s: string): (r: seq<string>)
    ensures forall k :: 0 <= k < |r| ==> Separator !in r[k]
    ensures Separator !in s ==> r == [s]
    ensures Separator in s ==> |r| == 0 || r[|r| - 1] != ""
  {
    if Separator !in s then [s] else DropTrailingEmpty(SplitAll(s))
  }

  lemma {:induction false} JoinCons(c: char, ts: seq<string>)
    requires |ts| >= 1
    ensures Join([[c] + ts[0]] + ts[1..]) == [c] + Join(ts)
  {
    var us := [[c] + ts[0]] + ts[1..];
    if |ts| > 1 {
      assert us[1..] == ts[1..];
    }
  }

  /** Splitting then joining gives back the original string. */
  lemma {:induction false} JoinSplitAll(s: string)
    ensures Join(SplitAll(s)) == s
  {
    if |s| > 0 {
      var tail := SplitAll(s[1..]);
      JoinSplitAll(s[1..]);
      if s[0] == Separator {
        assert ([""] + tail)[1..] == tail;
        assert s == [s[0]] + s[1..];
      } else {
        JoinCons(s[0], tail);
        assert s == [s[0]] + s[1..];
      }
    }
  }

  lemma {:induction false} SplitAllPrefix(a: string, s: string)
    requires Separator !in a
    ensures SplitAll(a + s) == [a + SplitAll(s)[0]] + SplitAll(s)[1..]
    decreases |a|
  {
    if |a| > 0 {
      assert (a + s)[1..] == a[1..] + s;
      SplitAllPrefix(a[1..], s);
      var tail := SplitAll(a[1..] + s);
      assert tail[0] == a[1..] + SplitAll(s)[0];
      assert tail[1..] == SplitAll(s)[1..];
      assert [a[0]] + tail[0] == a + SplitAll(s)[0];
    } else {
      assert a == [];
      assert a + s == s;
      assert a + SplitAll(s)[0] == SplitAll(s)[0];
      assert [SplitAll(s)[0]] + SplitAll(s)[1..] == SplitAll(s);
    }
  }

  /** Joining separator-free pieces then splitting gives back the pieces. */
  lemma {:induction false} SplitAllJoin(ts: seq<string>)
    requires |ts| >= 1
    requires forall k :: 0 <= k < |ts| ==> Separator !in ts[k]
    ensures SplitAll(Join(ts)) == ts
  {
    if |ts| == 1 {
      SplitAllPrefix(ts[0], "");
      assert ts[0] + "" == ts[0];
    } else {
      var rest := Join(ts[1..]);
      SplitAllJoin(ts[1..]);
      assert ([Separator] + rest)[1..] == rest;
      assert SplitAll([Separator] + rest) == [""] + ts[1..];
      assert Join(ts) == ts[0] + ([Separator] + rest);
      SplitAllPrefix(ts[0], [Separator] + rest);
      assert ts[0] + "" == ts[0];
      assert [ts[0]] + ts[1..] == ts;
    }
  }

  lemma {:induction false} JoinAppend(xs: seq<string>, ys: seq<string>)
    requires |xs| >= 1 && |ys| >= 1
    ensures Join(xs + ys) == Join(xs) + [Separator] + Join(ys)
    decreases |xs|
  {
    if |xs| == 1 {
      assert (xs + ys)[1..] == ys;
    } else {
      assert (xs + ys)[1..] == xs[1..] + ys;
      JoinAppend(xs[1..], ys);
    }
  }

  /** Splitting distributes over a separator: the pieces of `a + "x" + b` are
      the pieces of `a` followed by the pieces of `b`. */
  lemma SplitAllAround(a: string, b: string)
    ensures SplitAll(a + [Separator] + b) == SplitAll(a) + SplitAll(b)
  {
    JoinSplitAll(a);
    JoinSplitAll(b);
    JoinAppend(SplitAll(a), SplitAll(b));
    SplitAllJoin(SplitAll(a) + SplitAll(b));
  }

  lemma {:induction false} JoinTrailingEmpty(ts: seq<string>, n: nat)
    requires |ts| >= 1
    ensures Join(ts + seq(n, _ => "")) == Join(ts) + Separators(n)
    decreases n
  {
    if n == 0 {
      assert ts + seq(0, _ => "") == ts;
    } else {
      var prev := ts + seq(n - 1, _ => "");
      assert ts + seq(n, _ => "") == prev + [""];
      JoinTrailingEmpty(ts, n - 1);
      JoinAppend(prev, [""]);
      assert Join(prev) + [Separator] + Join([""]) == Join(prev) + [Separator];
      assert Separators(n) == Separators(n - 1) + [Separator];
    }
  }

  /** What `DropTrailingEmpty` removes is a run of empty pieces. */
  lemma DropTrailingEmptyRest(ts: seq<string>)
    ensures ts == DropTrailingEmpty(ts) + seq(|ts| - |DropTrailingEmpty(ts)|, _ => "")
  {
    var r := DropTrailingEmpty(ts);
    assert ts == r + ts[|r|..];
  }

  /** A line with a separator is what its pieces join to, followed by the
      separators between the empty pieces that were dropped. */
  lemma SplitXJoinRest(s: string)
    requires Separator in s
    ensures s == Join(SplitAll(s)[..|SplitX(s)|] + seq(|SplitAll(s)| - |SplitX(s)|, _ => ""))
  {
    var all := SplitAll(s);
    JoinSplitAll(s);
    DropTrailingEmptyRest(all);
  }

  lemma SplitXSomePieces(s: string)
    requires Separator in s && |SplitX(s)| >= 1
    ensures s == Join(SplitX(s)) + Separators(|SplitAll(s)| - |SplitX(s)|)
  {
    var r := SplitX(s);
    SplitXJoinRest(s);
    assert SplitAll(s)[..|r|] == r;
    JoinTrailingEmpty(r, |SplitAll(s)| - |r|);
  }

  lemma SplitXNoPieces(s: string)
    requires Separator in s && |SplitX(s)| == 0
    ensures s == Separators(|SplitAll(s)| - 1)
  {
    var n := |SplitAll(s)|;
    SplitXJoinRest(s);
    assert SplitAll(s)[..0] + seq(n, _ => "") == [""] + seq(n - 1, _ => "");
    JoinTrailingEmpty([""], n - 1);
    assert Join([""]) == "";
  }

  /** The pieces `split("x")` returns, joined back, are the input up to a run
      of separators at its end: nothing but separators is lost. */
  lemma SplitXLosesOnlySeparators(s: string)
    ensures |SplitX(s)| >= 1 ==> exists n :: s == Join(SplitX(s)) + Separators(n)
    ensures |SplitX(s)| == 0 ==> exists n :: s == Separators(n)
  {
    if Separator !in s {
      assert s == Join([s]) + Separators(0);
    } else if |SplitX(s)| >= 1 {
      SplitXSomePieces(s);
    } else {
      SplitXNoPieces(s);
    }
  }

  lemma {:induction false} DropTrailingEmptyAppend(xs: seq<string>, ys: seq<string>)
    ensures |DropTrailingEmpty(xs + ys)| >= |DropTrailingEmpty(xs)|
    ensures DropTrailingEmpty(xs + ys)[..|DropTrailingEmpty(xs)|] == DropTrailingEmpty(xs)
  {
    var d := DropTrailingEmpty(xs);
    var e := DropTrailingEmpty(xs + ys);
    if |d| > 0 {
      assert (xs + ys)[|d| - 1] == d[|d| - 1] != "";
      assert e[..|d|] == (xs + ys)[..|d|] == xs[..|d|];
    }
  }

  /** `split("x")` of pieces joined by the separator: the pieces, less the
      empty ones at the end. */
  lemma SplitXOf(ts: seq<string>, s: string)
    requires |ts| >= 2 && forall k :: 0 <= k < |ts| ==> Separator !in ts[k]
    requires s == Join(ts)
    ensures SplitX(s) == DropTrailingEmpty(ts)
  {
    SplitAllJoin(ts);
    assert s[|ts[0]|] == Separator;
  }

  /** A separator at the end of a non-empty line adds only an empty piece,
      which `split` drops again. */
  lemma SplitXTrailing(s: string)
    requires |s| > 0
    ensures SplitX(s + [Separator]) == SplitX(s)
  {
    SplitAllAround(s, "");
    assert s + [Separator] + "" == s + [Separator];
    assert (s + [Separator])[|s|] == Separator;
    var all := SplitAll(s);
    assert SplitAll(s + [Separator]) == all + [""];
    assert (all + [""])[..|all|] == all;
    if Separator !in s {
      assert all == [s] by {
        SplitAllPrefix(s, "");
        assert s + "" == s;
      }
    }
  }

  /** What follows a second piece never changes the first two pieces. */
  lemma SplitXExtension(s: string, extra: string)
    requires |SplitX(s)| >= 2
    ensures |SplitX(s + [Separator] + extra)| >= 2
    ensures SplitX(s + [Separator] + extra)[..2] == SplitX(s)[..2]
  {
    var t := s + [Separator] + extra;
    assert t[|s|] == Separator;
    SplitAllAround(s, extra);
    var d := DropTrailingEmpty(SplitAll(s));
    var e := DropTrailingEmpty(SplitAll(s) + SplitAll(extra));
    assert SplitX(s) == d && SplitX(t) == e;
    DropTrailingEmptyAppend(SplitAll(s), SplitAll(extra));
    PrefixOfPrefix(e, d, 2);
  }

  lemma PrefixOfPrefix(e: seq<string>, d: seq<string>, n: nat)
    requires n <= |d| <= |e| && e[..|d|] == d
    ensures e[..n] == d[..n]
  {
    assert e[..n] == e[..|d|][..n];
  }

  // ---------------------------------------------------------------------------
  // Integer.parseInt and its inverse Integer.toString
  // ---------------------------------------------------------------------------

  const IntMin: int := -0x8000_0000
  const IntMax: int := 0x7fff_ffff

  /** The range of a Java `int`. */
  predicate InIntRange(n: int) {
    IntMin <= n <= IntMax
  }

  predicate IsDigit(c: char) {
    '0' <= c <= '9'
  }

  predicate AllDigits(s: string) {
    forall k :: 0 <= k < |s| ==> IsDigit(s[k])
  }

  function DigitValue(c: char): nat
    requires IsDigit(c)
  {
    (c as int) - ('0' as int)
  }

  /** The value of a run of decimal digits, most significant first. */
  function DigitsValue(s: string): nat
    requires AllDigits(s)
  {
    if |s| == 0 then 0 else 10 * DigitsValue(s[..|s| - 1]) + DigitValue(s[|s| - 1])
  }

  /** `Integer.parseInt(s)` in radix 10: an optional `+` or `-`, then at least
      one digit, and the value must fit a Java `int`; anything else raises
      NumberFormatException, modelled as `None`. */
  function ParseInt(s: string): (r: Option<int>)
    ensures r.Some? ==> InIntRange(r.value)
    ensures r.Some? ==> |s| >= 1 && (AllDigits(s) || ((s[0] == '-' || s[0] == '+') && |s| >= 2 && AllDigits(s[1..])))
    ensures r.Some? && r.value < 0 ==> s[0] == '-'
  {
    if |s| == 0 then None
    else if s[0] == '-' || s[0] == '+' then
      if |s| == 1 || !AllDigits(s[1..]) then None
      else
        var magnitude: int := DigitsValue(s[1..]);
        var v := if s[0] == '-' then -magnitude else magnitude;
        if InIntRange(v) then Some(v) else None
    else if AllDigits(s) && DigitsValue(s) <= IntMax then Some(DigitsValue(s))
    else None
  }

  function DigitChar(d: nat): (c: char)
    requires d < 10
    ensures IsDigit(c) && DigitValue(c) == d
  {
    ('0' as int + d) as char
  }

  /** The decimal digits of `n`, without leading zeros. */
  function ShowNat(n: nat): (s: string)
    ensures |s| >= 1 && AllDigits(s)
  {
    if n < 10 then [DigitChar(n)] else ShowNat(n / 10) + [DigitChar(n % 10)]
  }

  /** `Integer.toString(n)`. */
  function ShowInt(n: int): (s: string)
    ensures |s| >= 1
  {
    if n < 0 then "-" + ShowNat(-n) else ShowNat(n)
  }

  lemma {:induction false} ShowNatValue(n: nat)
    ensures DigitsValue(ShowNat(n)) == n
  {
    if n >= 10 {
      var s := ShowNat(n);
      assert s[..|s| - 1] == ShowNat(n / 10);
      ShowNatValue(n / 10);
    }
  }

  /** Printing an `int` and parsing it back gives the same `int`. */
  lemma ParseShowInt(n: int)
    requires InIntRange(n)
    ensures ParseInt(ShowInt(n)) == Some(n)
  {
    var s := ShowInt(n);
    if n < 0 {
      assert s[1..] == ShowNat(-n);
      ShowNatValue(-n);
    } else {
      ShowNatValue(n);
    }
  }

  /** A printed `int` holds neither blanks nor the separator, so it survives
      `trim()` and is one piece of `split("x")`. */
  lemma ShowIntPlain(n: int)
    ensures IsTrimmed(ShowInt(n))
    ensures Separator !in ShowInt(n)
  {
    var s := ShowInt(n);
    assert forall k :: 0 <= k < |s| ==> s[k] == '-' || IsDigit(s[k]);
  }

  /** Two separator-free pieces joined by the separator split back into
      those two pieces, as long as the second is not empty. */
  lemma SplitXPair(a: string, b: string)
    requires Separator !in a && Separator !in b && b != ""
    ensures SplitX(a + [Separator] + b) == [a, b]
  {
    var s := a + [Separator] + b;
    assert Join([a, b]) == s;
    SplitXOf([a, b], s);
  }
}
