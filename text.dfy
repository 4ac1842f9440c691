/** The Python string built-ins the commit tool relies on: `str.strip()`,
    `str.split()`, `str.lower()`, `sep.join(...)`, slicing `s[:n]` and `str(n)`
    for a natural number. Strings are sequences of code points, as in Python 3. */
module Text {

  /** Python's whitespace (`str.isspace()`), which `strip()` and `split()`
      without arguments remove and split on. */
  predicate IsSpace(c: char)
  {
    c == ' ' || ('\t' <= c <= '\r') || ('\U{1c}' <= c <= '\U{1f}')
    || c == '\U{85}' || c == '\U{a0}' || c == '\U{1680}'
    || ('\U{2000}' <= c <= '\U{200a}') || c == '\U{2028}' || c == '\U{2029}'
    || c == '\U{202f}' || c == '\U{205f}' || c == '\U{3000}'
  }

  predicate AllSpace(s: string)
  {
    forall i :: 0 <= i < |s| ==> IsSpace(s[i])
  }

  /** A word as `split()` yields it: non-empty, without whitespace. */
  predicate IsWord(w: string)
  {
    w != [] && forall i :: 0 <= i < |w| ==> !IsSpace(w[i])
  }

  /** Neither end of `s` is whitespace. */
  predicate Trimmed(s: string)
  {
    s == [] || (!IsSpace(s[0]) && !IsSpace(s[|s| - 1]))
  }

  // ---------------------------------------------------------------- strip

  function TrimStart(s: string): (r: string)
    ensures |r| <= |s| && r == s[|s| - |r|..]
    ensures AllSpace(s[..|s| - |r|])
    ensures r == [] || !IsSpace(r[0])
  {
    if s == [] || !IsSpace(s[0]) then s else TrimStart(s[1..])
  }

  function TrimEnd(s: string): (r: string)
    ensures |r| <= |s| && r == s[..|r|]
    ensures AllSpace(s[|r|..])
    ensures r == [] || !IsSpace(r[|r| - 1])
  {
    if s == [] || !IsSpace(s[|s| - 1]) then s else TrimEnd(s[..|s| - 1])
  }

  /** `s.strip()`: no whitespace is left at either end. Which characters it
      keeps is stated by StripSlice. */
  function Strip(s: string): (r: string)
    ensures Trimmed(r)
    ensures |r| <= |s|
  {
    TrimEnd(TrimStart(s))
  }

  /** What `strip()` keeps is one contiguous slice of `s`, and only whitespace
      lies outside it. */
  lemma StripSlice(s: string) returns (i: nat, j: nat)
    ensures i <= j <= |s|
    ensures Strip(s) == s[i..j]
    ensures AllSpace(s[..i]) && AllSpace(s[j..])
  {
    var t := TrimStart(s);
    var r := TrimEnd(t);
    i, j := |s| - |t|, |s| - |t| + |r|;
    assert s[j..] == t[|r|..];
  }

  lemma TrimmedIsFixed(s: string)
    requires Trimmed(s)
    ensures Strip(s) == s
  {
  }

  /** Stripping leaves a string alone exactly when neither of its ends is
      whitespace; in particular `strip()` is idempotent. */
  lemma StripFixedIff(s: string)
    ensures Strip(s) == s <==> Trimmed(s)
    ensures Strip(Strip(s)) == Strip(s)
  {
    if Trimmed(s) { TrimmedIsFixed(s); }
    TrimmedIsFixed(Strip(s));
  }

  lemma {:induction false} TrimStartPadding(p: string, s: string)
    requires AllSpace(p)
    ensures TrimStart(p + s) == TrimStart(s)
    decreases |p|
  {
    if p != [] {
      assert (p + s)[1..] == p[1..] + s;
      TrimStartPadding(p[1..], s);
    } else {
      assert p + s == s;
    }
  }

  lemma {:induction false} TrimEndPadding(s: string, q: string)
    requires AllSpace(q)
    ensures TrimEnd(s + q) == TrimEnd(s)
    decreases |q|
  {
    if q != [] {
      assert (s + q)[..|s + q| - 1] == s + q[..|q| - 1];
      TrimEndPadding(s, q[..|q| - 1]);
    } else {
      assert s + q == s;
    }
  }

  lemma {:induction false} TrimStartAllSpace(q: string)
    requires AllSpace(q)
    ensures TrimStart(q) == []
    decreases |q|
  {
    if q != [] { TrimStartAllSpace(q[1..]); }
  }

  lemma StripPadStart(p: string, s: string)
    requires AllSpace(p)
    ensures Strip(p + s) == Strip(s)
  {
    TrimStartPadding(p, s);
  }

  lemma StripPadEnd(s: string, q: string)
    requires AllSpace(q)
    ensures Strip(s + q) == Strip(s)
  {
    var t := TrimStart(s);
    var h := s[..|s| - |t|];
    assert s + q == h + (t + q);
    TrimStartPadding(h, t + q);
    if t == [] {
      assert t + q == q;
      TrimStartAllSpace(q);
    } else {
      assert TrimStart(t + q) == t + q;
      TrimEndPadding(t, q);
    }
  }

  /** Whitespace added around a string does not change what `strip()` returns. */
  lemma StripPadding(p: string, s: string, q: string)
    requires AllSpace(p) && AllSpace(q)
    ensures Strip(p + s + q) == Strip(s)
  {
    StripPadEnd(p + s, q);
    StripPadStart(p, s);
  }

  // ---------------------------------------------------------------- lower

  /** ASCII lower-casing of one character. */
  function LowerChar(c: char): char
  {
    if 'A' <= c <= 'Z' then (c as int + 32) as char else c
  }

  /** `s.lower()` over ASCII letters: same length, every upper-case letter
      replaced by its lower-case form, nothing else changed. */
  function Lower(s: string): (r: string)
    ensures |r| == |s|
    ensures forall i :: 0 <= i < |s| ==> r[i] == LowerChar(s[i])
  {
    if s == [] then [] else [LowerChar(s[0])] + Lower(s[1..])
  }

  lemma LowerKeepsSpace(c: char)
    ensures IsSpace(LowerChar(c)) == IsSpace(c)
  {
  }

  lemma {:induction false} LowerTrimStart(s: string)
    ensures Lower(TrimStart(s)) == TrimStart(Lower(s))
    decreases |s|
  {
    if s != [] {
      LowerKeepsSpace(s[0]);
      assert Lower(s)[1..] == Lower(s[1..]);
      LowerTrimStart(s[1..]);
    }
  }

  lemma {:induction false} LowerTrimEnd(s: string)
    ensures Lower(TrimEnd(s)) == TrimEnd(Lower(s))
    decreases |s|
  {
    if s != [] {
      LowerKeepsSpace(s[|s| - 1]);
      assert Lower(s)[..|s| - 1] == Lower(s[..|s| - 1]);
      LowerTrimEnd(s[..|s| - 1]);
    }
  }

  /** Lower-casing and stripping commute, because lower-casing neither makes
      nor unmakes whitespace. */
  lemma LowerStripCommute(s: string)
    ensures Lower(Strip(s)) == Strip(Lower(s))
  {
    LowerTrimStart(s);
    LowerTrimEnd(TrimStart(s));
  }

  // ---------------------------------------------------------------- split

  /** Length of the run of non-whitespace characters that `s` starts with. */
  function WordEnd(s: string): (n: nat)
    ensures n <= |s|
    ensures forall i :: 0 <= i < n ==> !IsSpace(s[i])
    ensures n < |s| ==> IsSpace(s[n])
  {
    if s == [] || IsSpace(s[0]) then 0 else 1 + WordEnd(s[1..])
  }

  /** `s.split()`: the maximal runs of non-whitespace, in order. */
  function Words(s: string): (ws: seq<string>)
    ensures forall k :: 0 <= k < |ws| ==> IsWord(ws[k])
    decreases |s|
  {
    if s == [] then []
    else if IsSpace(s[0]) then Words(s[1..])
    else
      var n := WordEnd(s);
      [s[..n]] + Words(s[n..])
  }

  // ---------------------------------------------------------------- join

  /** `sep.join(parts)`. */
  function Join(parts: seq<string>, sep: string): string
  {
    if |parts| == 0 then ""
    else if |parts| == 1 then parts[0]
    else parts[0] + sep + Join(parts[1..], sep)
  }

  /** `" ".join(words)`. */
  function Unwords(words: seq<string>): string
  {
    Join(words, " ")
  }

  lemma {:induction false} JoinSnoc(parts: seq<string>, last: string, sep: string)
    requires parts != []
    ensures Join(parts + [last], sep) == Join(parts, sep) + sep + last
    decreases |parts|
  {
    if |parts| > 1 {
      assert (parts + [last])[1..] == parts[1..] + [last];
      JoinSnoc(parts[1..], last, sep);
    } else {
      assert parts + [last] == [parts[0], last];
    }
  }

  /** Joining two non-empty lists equals joining their joins. */
  lemma {:induction false} JoinAppend(a: seq<string>, b: seq<string>, sep: string)
    requires a != [] && b != []
    ensures Join(a + b, sep) == Join(a, sep) + sep + Join(b, sep)
    decreases |a|
  {
    if |a| == 1 {
      assert (a + b)[1..] == b;
    } else {
      assert (a + b)[1..] == a[1..] + b;
      JoinAppend(a[1..], b, sep);
    }
  }

  lemma {:induction false} WordEndOfWord(w: string)
    requires forall i :: 0 <= i < |w| ==> !IsSpace(w[i])
    ensures WordEnd(w) == |w|
    decreases |w|
  {
    if w != [] {
      assert !IsSpace(w[0]);
      WordEndOfWord(w[1..]);
    }
  }

  lemma WordsOfWord(w: string)
    requires IsWord(w)
    ensures Words(w) == [w]
  {
    WordEndOfWord(w);
    assert w[..|w|] == w;
    assert w[|w|..] == [];
  }

  /** `split()` undoes `" ".join` on words: the list of words is recovered. */
  lemma {:induction false} WordsOfUnwords(ws: seq<string>)
    requires forall k :: 0 <= k < |ws| ==> IsWord(ws[k])
    ensures Words(Unwords(ws)) == ws
    decreases |ws|
  {
    if |ws| == 1 {
      WordsOfWord(ws[0]);
    } else if |ws| > 1 {
      var w := ws[0];
      var rest := Unwords(ws[1..]);
      var s := w + " " + rest;
      assert s == Unwords(ws);
      assert s[|w|] == ' ';
      assert WordEnd(s) == |w|;
      assert s[..|w|] == w;
      assert s[|w|..][1..] == rest;
      WordsOfUnwords(ws[1..]);
    }
  }

  /** The first word of `a + t` is that of `a` when it ends inside `a`, or
      when `t` starts with whitespace. */
  lemma {:induction false} WordEndPrefix(a: string, t: string)
    requires WordEnd(a) < |a| || (t != [] && IsSpace(t[0]))
    ensures WordEnd(a + t) == WordEnd(a)
    decreases |a|
  {
    if a == [] {
      assert a + t == t;
    } else if !IsSpace(a[0]) {
      assert (a + t)[0] == a[0];
      assert (a + t)[1..] == a[1..] + t;
      WordEndPrefix(a[1..], t);
    } else {
      assert (a + t)[0] == a[0];
    }
  }

  /** The first word of `a + t` is taken from `a` when `t` starts with
      whitespace. */
  lemma FirstWordOfPrefix(a: string, t: string)
    requires a != [] && !IsSpace(a[0])
    requires t != [] && IsSpace(t[0])
    ensures Words(a + t) == [a[..WordEnd(a)]] + Words(a[WordEnd(a)..] + t)
  {
    var s := a + t;
    var n := WordEnd(a);
    WordEndPrefix(a, t);
    assert s[0] == a[0];
    assert s[..n] == a[..n];
    assert s[n..] == a[n..] + t;
  }

  /** `split()` cuts at every whitespace character: the words on either side
      of one are the words of each side, in order. With `Words([]) == []` and
      WordsOfWord this determines `split()` on every string. */
  lemma {:induction false} WordsSplitAtSpace(a: string, c: char, b: string)
    requires IsSpace(c)
    ensures Words(a + [c] + b) == Words(a) + Words(b)
    decreases |a|
  {
    var t := [c] + b;
    assert a + [c] + b == a + t;
    if a == [] {
      assert a + t == t;
      assert t[1..] == b;
    } else if IsSpace(a[0]) {
      assert (a + t)[0] == a[0];
      assert (a + t)[1..] == a[1..] + [c] + b;
      WordsSplitAtSpace(a[1..], c, b);
    } else {
      var n := WordEnd(a);
      FirstWordOfPrefix(a, t);
      assert a[n..] + t == a[n..] + [c] + b;
      WordsSplitAtSpace(a[n..], c, b);
    }
  }

  // ---------------------------------------------------------------- split on one character

  /** Index of the first `sep` in `s`, or `|s|` when there is none. */
  function FieldEnd(s: string, sep: char): (n: nat)
    ensures n <= |s|
    ensures forall i :: 0 <= i < n ==> s[i] != sep
    ensures n < |s| ==> s[n] == sep
  {
    if s == [] || s[0] == sep then 0 else 1 + FieldEnd(s[1..], sep)
  }

  /** `s.split(sep)` for a one-character separator. */
  function SplitOn(s: string, sep: char): (parts: seq<string>)
    ensures |parts| >= 1
    ensures forall k :: 0 <= k < |parts| ==> sep !in parts[k]
    decreases |s|
  {
    var n := FieldEnd(s, sep);
    assert sep !in s[..n] by {
      forall i | 0 <= i < n ensures s[..n][i] != sep { }
    }
    if n == |s| then [s] else [s[..n]] + SplitOn(s[n + 1..], sep)
  }

  lemma {:induction false} FieldEndOfJoin(p: string, rest: string, sep: char)
    requires sep !in p
    ensures FieldEnd(p + rest, sep) == |p| + FieldEnd(rest, sep)
    decreases |p|
  {
    if p != [] {
      assert p[0] in p;
      assert (p + rest)[1..] == p[1..] + rest;
      FieldEndOfJoin(p[1..], rest, sep);
    } else {
      assert p + rest == rest;
    }
  }

  /** A field without the separator, then the separator: the field is the
      first piece of the split. */
  lemma SplitOnCons(p: string, rest: string, sep: char)
    requires sep !in p
    ensures SplitOn(p + [sep] + rest, sep) == [p] + SplitOn(rest, sep)
  {
    var s := p + [sep] + rest;
    FieldEndOfJoin(p, [sep] + rest, sep);
    assert s == p + ([sep] + rest);
    assert s[..|p|] == p;
    assert s[|p| + 1..] == rest;
  }

  /** Splitting on a separator undoes joining with it, when no part holds the
      separator. */
  lemma {:induction false} SplitOnJoin(parts: seq<string>, sep: char)
    requires parts != []
    requires forall k :: 0 <= k < |parts| ==> sep !in parts[k]
    ensures SplitOn(Join(parts, [sep]), sep) == parts
    decreases |parts|
  {
    if |parts| == 1 {
      FieldEndOfJoin(parts[0], [], sep);
      assert parts[0] + [] == parts[0];
    } else {
      SplitOnCons(parts[0], Join(parts[1..], [sep]), sep);
      SplitOnJoin(parts[1..], sep);
      assert parts == [parts[0]] + parts[1..];
    }
  }

  /** Joining the pieces of a split with the separator gives back the string. */
  lemma {:induction false} JoinSplitOn(s: string, sep: char)
    ensures Join(SplitOn(s, sep), [sep]) == s
    decreases |s|
  {
    var n := FieldEnd(s, sep);
    if n < |s| {
      JoinSplitOn(s[n + 1..], sep);
      var tail := SplitOn(s[n + 1..], sep);
      assert SplitOn(s, sep)[1..] == tail;
      assert s == s[..n] + [sep] + s[n + 1..];
    }
  }

  // ---------------------------------------------------------------- slicing

  function Min(a: int, b: int): int
  {
    if a <= b then a else b
  }

  /** Python's `s[:n]`: the first `min(n, |s|)` elements of `s`. */
  function Take<T>(s: seq<T>, n: nat): (r: seq<T>)
    ensures |r| == Min(n, |s|)
    ensures r == s[..|r|]
  {
    if |s| <= n then s else s[..n]
  }

  // ---------------------------------------------------------------- str(n)

  predicate IsDigit(c: char)
  {
    '0' <= c <= '9'
  }

  predicate AllDigits(s: string)
  {
    forall i :: 0 <= i < |s| ==> IsDigit(s[i])
  }

  function DigitChar(d: nat): (c: char)
    requires d < 10
    ensures IsDigit(c)
  {
    ('0' as int + d) as char
  }

  /** `str(n)`: the decimal numeral of `n`, without leading zeros. */
  function NatToString(n: nat): (r: string)
    ensures r != [] && AllDigits(r)
    ensures r[0] == '0' ==> n == 0
  {
    if n < 10 then [DigitChar(n)] else NatToString(n / 10) + [DigitChar(n % 10)]
  }

  /** The number a string of decimal digits denotes (`int(s)`). */
  function DecimalValue(s: string): nat
    requires AllDigits(s)
  {
    if s == [] then 0
    else DecimalValue(s[..|s| - 1]) * 10 + (s[|s| - 1] as int - '0' as int)
  }

  /** Reading back a numeral gives the number it was printed from. */
  lemma {:induction false} DecimalValueOfNatToString(n: nat)
    ensures DecimalValue(NatToString(n)) == n
  {
    if n >= 10 {
      var r := NatToString(n);
      assert r[..|r| - 1] == NatToString(n / 10);
      DecimalValueOfNatToString(n / 10);
    }
  }
}
