/** Option/Result wrappers and the sequence helpers shared by every module. */
module Base {

  datatype Option<T> = None | Some(value: T)

  /** A token, pool or wallet address as the script handles it: a string. */
  type Addr = string

  /** The text a failure surfaces as, `(e && e.message) || String(e)`: the
      error's message, or when that is empty the error rendered as a string,
      which for an error object starts with its name. It is non-empty for
      every error object, and the model takes every failure to be one. */
  type Message = s: string | s != [] witness "Error"

  /** Outcome of a remote call: a decoded value, or the failure's message. */
  datatype Result<T> = Ok(value: T) | Fail(message: Message)

  ghost predicate NoDuplicates<T>(s: seq<T>) {
    forall i, j :: 0 <= i < j < |s| ==> s[i] != s[j]
  }

  /** `set.add(x)` on a JavaScript Set: insertion order is kept, a present
      element is not added twice. */
  function SetAdd<T(==,!new)>(s: seq<T>, x: T): (r: seq<T>)
    ensures NoDuplicates(s) ==> NoDuplicates(r)
    ensures forall y :: y in r <==> y in s || y == x
    ensures x in s ==> r == s
    ensures x !in s ==> r == s + [x]
  {
    if x in s then s else s + [x]
  }

  /** `Array.from(new Set(xs))`: first occurrences, in order. */
  function Unique<T(==,!new)>(xs: seq<T>): (r: seq<T>)
    ensures NoDuplicates(r)
    ensures forall x :: x in r <==> x in xs
  {
    if |xs| == 0 then [] else SetAdd(Unique(xs[..|xs| - 1]), xs[|xs| - 1])
  }
}

/** The string operations the source uses: `trim`, `indexOf`, `split`,
    `toLowerCase`, decimal rendering of big integers, and `shorten`. */
module Text {
  import opened Base

  /** JavaScript's `WhiteSpace` and `LineTerminator` code points, the set
      `String.prototype.trim` strips. */
  predicate IsSpace(c: char) {
    c == ' ' || c == '\t' || c == '\n' || c == '\r' || c == '\U{000B}' || c == '\U{000C}'
    || c == '\U{00A0}' || c == '\U{1680}' || ('\U{2000}' <= c <= '\U{200A}')
    || c == '\U{2028}' || c == '\U{2029}' || c == '\U{202F}' || c == '\U{205F}'
    || c == '\U{3000}' || c == '\U{FEFF}'
  }

  /** `s` without its leading white space. */
  function TrimStart(s: string): string {
    if |s| > 0 && IsSpace(s[0]) then TrimStart(s[1..]) else s
  }

  /** `TrimStart` drops a prefix made only of white space, up to the first
      other character. */
  lemma {:induction false} TrimStartSpec(s: string)
    ensures var r := TrimStart(s);
            && |r| <= |s| && r == s[|s| - |r|..]
            && (forall k :: 0 <= k < |s| - |r| ==> IsSpace(s[k]))
            && (r == [] || !IsSpace(r[0]))
  {
    if |s| > 0 && IsSpace(s[0]) {
      var t, r := s[1..], TrimStart(s[1..]);
      TrimStartSpec(t);
      assert t[|t| - |r|..] == s[|s| - |r|..];
      forall k | 0 <= k < |s| - |r| ensures IsSpace(s[k]) {
        if k > 0 {
          assert s[k] == t[k - 1];
        }
      }
    }
  }

  /** `s` without its trailing white space. */
  function TrimEnd(s: string): string {
    if |s| > 0 && IsSpace(s[|s| - 1]) then TrimEnd(s[..|s| - 1]) else s
  }

  /** `TrimEnd` drops a suffix made only of white space, back to the last
      other character. */
  lemma {:induction false} TrimEndSpec(s: string)
    ensures var r := TrimEnd(s);
            && |r| <= |s| && r == s[..|r|]
            && (forall k :: |r| <= k < |s| ==> IsSpace(s[k]))
            && (r == [] || !IsSpace(r[|r| - 1]))
  {
    if |s| > 0 && IsSpace(s[|s| - 1]) {
      TrimEndSpec(s[..|s| - 1]);
    }
  }

  /** `s.trim()`: no white space is left at either end. */
  function Trim(s: string): (r: string)
    ensures r == [] || (!IsSpace(r[0]) && !IsSpace(r[|r| - 1]))
  {
    TrimStartSpec(s);
    TrimEndSpec(TrimStart(s));
    TrimEnd(TrimStart(s))
  }

  /** What `trim` keeps is a slice of its input, and what it removes is all
      white space. */
  lemma TrimIsSlice(s: string)
    ensures exists i, j :: 0 <= i <= j <= |s| && Trim(s) == s[i..j]
                           && (forall k :: 0 <= k < i ==> IsSpace(s[k]))
                           && (forall k :: j <= k < |s| ==> IsSpace(s[k]))
  {
    var a := TrimStart(s);
    var b := TrimEnd(a);
    TrimStartSpec(s);
    TrimEndSpec(a);
    assert b == s[|s| - |a|..|s| - |a| + |b|];
  }

  /** `trim` keeps exactly the slice between a white-space prefix and a
      white-space suffix whose ends are not white space. */
  lemma TrimUnique(s: string, i: nat, j: nat)
    requires i <= j <= |s|
    requires forall k :: 0 <= k < i ==> IsSpace(s[k])
    requires forall k :: j <= k < |s| ==> IsSpace(s[k])
    requires i < j ==> !IsSpace(s[i]) && !IsSpace(s[j - 1])
    ensures Trim(s) == s[i..j]
  {
    var a := TrimStart(s);
    TrimStartSpec(s);
    var i' := |s| - |a|;
    assert a == [] || a[0] == s[i'];
    if i == j {
      assert a == [];
    } else {
      assert i' == i;
      var b := TrimEnd(a);
      TrimEndSpec(a);
      assert b == [] || b[|b| - 1] == s[i + |b| - 1];
      assert a[j - i - 1] == s[j - 1];
      assert |b| == j - i;
    }
  }

  /** Trimming what `TrimStart` left is trimming the original. */
  lemma TrimOfTrimStart(s: string)
    ensures Trim(TrimStart(s)) == Trim(s)
  {
    var a := TrimStart(s);
    TrimStartSpec(s);
    assert TrimStart(a) == a;
  }

  /** A trailing white-space character does not change what `trim` keeps. */
  lemma TrimDropTrailingSpace(s: string)
    requires |s| > 0 && IsSpace(s[|s| - 1])
    ensures Trim(s) == Trim(s[..|s| - 1])
  {
    var t := s[..|s| - 1];
    var i, j := TrimBounds(t);
    assert forall k :: 0 <= k < |t| ==> s[k] == t[k];
    TrimUnique(s, i, j);
    assert s[i..j] == t[i..j];
  }

  /** Where `trim` cuts `s`. */
  lemma TrimBounds(s: string) returns (i: nat, j: nat)
    ensures i <= j <= |s| && Trim(s) == s[i..j]
    ensures forall k :: 0 <= k < i ==> IsSpace(s[k])
    ensures forall k :: j <= k < |s| ==> IsSpace(s[k])
    ensures i < j ==> !IsSpace(s[i]) && !IsSpace(s[j - 1])
  {
    TrimIsSlice(s);
    i, j :| 0 <= i <= j <= |s| && Trim(s) == s[i..j]
            && (forall k :: 0 <= k < i ==> IsSpace(s[k]))
            && (forall k :: j <= k < |s| ==> IsSpace(s[k]));
    if i < j {
      assert s[i] == Trim(s)[0];
      assert s[j - 1] == Trim(s)[j - i - 1];
    }
  }

  /** Trimming what `TrimEnd` left is trimming the original. */
  lemma {:induction false} TrimOfTrimEnd(s: string)
    ensures Trim(TrimEnd(s)) == Trim(s)
    decreases |s|
  {
    if |s| > 0 && IsSpace(s[|s| - 1]) {
      TrimOfTrimEnd(s[..|s| - 1]);
      TrimDropTrailingSpace(s);
    }
  }

  /** White space at the front of `p` is all `TrimStart` removes when what
      follows `p` starts with another character. */
  lemma {:induction false} TrimStartBefore(p: string, rest: string)
    requires rest != [] && !IsSpace(rest[0])
    ensures TrimStart(p + rest) == TrimStart(p) + rest
    decreases |p|
  {
    if p == [] {
      assert p + rest == rest;
    } else if IsSpace(p[0]) {
      assert (p + rest)[1..] == p[1..] + rest;
      TrimStartBefore(p[1..], rest);
    }
  }

  /** White space at the back of `q` is all `TrimEnd` removes when what
      precedes `q` ends with another character. */
  lemma {:induction false} TrimEndAfter(x: string, q: string)
    requires x != [] && !IsSpace(x[|x| - 1])
    ensures TrimEnd(x + q) == x + TrimEnd(q)
    decreases |q|
  {
    if q == [] {
      assert x + q == x;
    } else if IsSpace(q[|q| - 1]) {
      assert (x + q)[..|x + q| - 1] == x + q[..|q| - 1];
      TrimEndAfter(x, q[..|q| - 1]);
    }
  }

  /** Around a character that is not white space, `trim` strips the front of
      what precedes it and the back of what follows it. */
  lemma TrimAround(p: string, c: char, q: string)
    requires !IsSpace(c)
    ensures Trim(p + [c] + q) == TrimStart(p) + [c] + TrimEnd(q)
  {
    var line := p + [c] + q;
    assert line == p + ([c] + q);
    TrimStartBefore(p, [c] + q);
    assert TrimStart(line) == (TrimStart(p) + [c]) + q;
    TrimEndAfter(TrimStart(p) + [c], q);
  }

  /** Trimming twice is trimming once. */
  lemma TrimIdempotent(s: string)
    ensures Trim(Trim(s)) == Trim(s)
  {
    TrimFixed(Trim(s));
  }

  /** A string with no white space at either end is left alone by `trim`. */
  lemma TrimFixed(s: string)
    requires s == [] || (!IsSpace(s[0]) && !IsSpace(s[|s| - 1]))
    ensures Trim(s) == s
  {
    if s != [] {
      assert TrimStart(s) == s;
      assert TrimEnd(s) == s;
    }
  }

  /** `s.indexOf(c)`: the first position of `c`, or None for -1. */
  function IndexOf(s: string, c: char): (r: Option<nat>)
    ensures r.None? <==> c !in s
    ensures r.Some? ==> r.value < |s| && s[r.value] == c && c !in s[..r.value]
  {
    if |s| == 0 then None
    else if s[0] == c then Some(0)
    else match IndexOf(s[1..], c)
      case None => None
      case Some(i) =>
        assert s[..i + 1] == [s[0]] + s[1..][..i];
        Some(i + 1)
  }

  function Join(parts: seq<string>, sep: char): string
    requires |parts| >= 1
  {
    if |parts| == 1 then parts[0] else parts[0] + [sep] + Join(parts[1..], sep)
  }

  /** `s.split(sep)` with a one-character separator: the pieces joined back
      with `sep` give `s`, and no piece contains `sep`. */
  function Split(s: string, sep: char): (r: seq<string>)
    ensures |r| >= 1
    ensures forall k :: 0 <= k < |r| ==> sep !in r[k]
    ensures Join(r, sep) == s
    decreases |s|
  {
    match IndexOf(s, sep)
    case None => [s]
    case Some(i) =>
      var rest := Split(s[i + 1..], sep);
      assert s == s[..i] + [sep] + s[i + 1..];
      [s[..i]] + rest
  }

  /** Splitting `p + [sep] + q` where `p` holds no separator yields `p`
      followed by the pieces of `q`. */
  lemma SplitAfterFirst(p: string, sep: char, q: string)
    requires sep !in p
    ensures Split(p + [sep] + q, sep) == [p] + Split(q, sep)
  {
    var s := p + [sep] + q;
    assert s[|p|] == sep;
    assert s[..|p|] == p;
    assert s[|p| + 1..] == q;
  }

  function LowerChar(c: char): char {
    if 'A' <= c <= 'Z' then (c as int + 32) as char else c
  }

  /** `s.toLowerCase()` on ASCII letters. */
  function ToLower(s: string): (r: string)
    ensures |r| == |s|
    ensures forall k :: 0 <= k < |s| ==> r[k] == LowerChar(s[k])
  {
    seq(|s|, k requires 0 <= k < |s| => LowerChar(s[k]))
  }

  lemma ToLowerIdempotent(s: string)
    ensures ToLower(ToLower(s)) == ToLower(s)
  {
  }

  function Digit(d: nat): char
    requires d < 10
  {
    ('0' as int + d) as char
  }

  predicate IsDigits(s: string) {
    forall k :: 0 <= k < |s| ==> '0' <= s[k] <= '9'
  }

  /** The number a string of decimal digits denotes, read left to right
      (a character that is not a digit counts as 0). */
  function DigitsValue(s: string): nat {
    if |s| == 0 then 0
    else
      var c := s[|s| - 1];
      DigitsValue(s[..|s| - 1]) * 10 + (if '0' <= c <= '9' then c as int - '0' as int else 0)
  }

  /** `BigNumber.toString()` and a template literal's `${i}`: the decimal
      digits of `n`, which read back as `n`, with no leading zero. */
  function DecimalString(n: nat): (r: string)
    ensures |r| >= 1 && IsDigits(r)
    ensures DigitsValue(r) == n
    ensures r[0] == '0' ==> n == 0
  {
    if n < 10 then
      assert [Digit(n)][..0] == [];
      [Digit(n)]
    else
      var r := DecimalString(n / 10) + [Digit(n % 10)];
      assert r[..|r| - 1] == DecimalString(n / 10);
      r
  }

  const Ellipsis: char := '\U{2026}'

  /** `shorten`: an address of fewer than 10 characters (or the empty one) is
      returned as it is; a longer one keeps its first 6 and last 4 characters
      around an ellipsis. */
  function Shorten(addr: string): (r: string)
    ensures |addr| < 10 ==> r == addr
    ensures |addr| >= 10 ==> |r| == 11 && r[..6] == addr[..6] && r[6] == Ellipsis
                             && r[7..] == addr[|addr| - 4..]
  {
    if |addr| == 0 || |addr| < 10 then addr
    else addr[..6] + [Ellipsis] + addr[|addr| - 4..]
  }

  /** A shortened display form is a fixed point of `shorten`. */
  lemma ShortenIdempotent(addr: string)
    ensures Shorten(Shorten(addr)) == Shorten(addr)
  {
    var r := Shorten(addr);
    if |addr| >= 10 {
      assert r == r[..6] + [r[6]] + r[7..];
    }
  }
}
