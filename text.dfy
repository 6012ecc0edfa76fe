/**
 * The parts of Python's `str` that the verse helpers and the merge scripts use,
 * over ASCII: `isspace`, `isdigit`, `strip`, `lower`, `title`, `startswith`,
 * the `in` substring test, `split()[0]`, `split(sep)[0]` and `int()` on a token.
 */
module Text {
  import opened Wrappers

  /** The ASCII characters for which Python's `str.isspace()` holds: tab, line feed,
      vertical tab, form feed, carriage return, the separators 0x1C-0x1F and space. */
  const Whitespace: set<char> := {'\t', '\n', '\U{0B}', '\U{0C}', '\r', '\U{1C}', '\U{1D}', '\U{1E}', '\U{1F}', ' '}

  predicate IsDigit(c: char) { '0' <= c <= '9' }
  predicate IsUpper(c: char) { 'A' <= c <= 'Z' }
  predicate IsLower(c: char) { 'a' <= c <= 'z' }
  /** Python's notion of a "cased" character, restricted to ASCII letters. */
  predicate IsCased(c: char) { IsUpper(c) || IsLower(c) }

  function LowerChar(c: char): char { if IsUpper(c) then (c as int + 32) as char else c }
  function UpperChar(c: char): char { if IsLower(c) then (c as int - 32) as char else c }

  /** `s.lower()` */
  function Lower(s: string): (r: string)
    ensures |r| == |s| && forall i :: 0 <= i < |s| ==> r[i] == LowerChar(s[i])
  {
    seq(|s|, i requires 0 <= i < |s| => LowerChar(s[i]))
  }

  /** `s.startswith(p)` */
  predicate StartsWith(s: string, p: string) { |p| <= |s| && s[..|p|] == p }

  /** `t` occurs in `s` at index `i`. */
  predicate OccursAt(s: string, t: string, i: nat) { i + |t| <= |s| && s[i..i + |t|] == t }

  /** Writing `x`, then `y`, then `z` gives the same text however the writes are grouped. */
  lemma ConcatAssoc<T>(x: seq<T>, y: seq<T>, z: seq<T>)
    ensures (x + y) + z == x + (y + z)
  {
  }

  /** `t in s`: Python's substring test. */
  function Contains(s: string, t: string): (r: bool)
    ensures r <==> exists i: nat :: OccursAt(s, t, i)
    decreases |s|
  {
    if StartsWith(s, t) then
      assert OccursAt(s, t, 0);
      true
    else if |s| <= |t| then
      assert forall i: nat :: OccursAt(s, t, i) ==> i == 0;
      false
    else
      var r := Contains(s[1..], t);
      assert forall i: nat :: OccursAt(s[1..], t, i) <==> OccursAt(s, t, i + 1) by {
        forall i: nat ensures OccursAt(s[1..], t, i) <==> OccursAt(s, t, i + 1) {
          if i + |t| <= |s| - 1 { assert s[1..][i..i + |t|] == s[i + 1..i + 1 + |t|]; }
        }
      }
      assert forall i: nat :: OccursAt(s, t, i) ==> i > 0 && OccursAt(s[1..], t, i - 1);
      r
  }

  /** `s` with the leading characters in `cs` removed (`s.lstrip(cs)`). */
  function TrimLeft(s: string, cs: set<char>): (r: string)
    ensures |r| <= |s| && r == s[|s| - |r|..]
    ensures forall k :: 0 <= k < |s| - |r| ==> s[k] in cs
    ensures r == [] || r[0] !in cs
  {
    if s != [] && s[0] in cs then TrimLeft(s[1..], cs) else s
  }

  /** `s` with the trailing characters in `cs` removed (`s.rstrip(cs)`). */
  function TrimRight(s: string, cs: set<char>): (r: string)
    ensures |r| <= |s| && r == s[..|r|]
    ensures forall k :: |r| <= k < |s| ==> s[k] in cs
    ensures r == [] || r[|r| - 1] !in cs
  {
    if s != [] && s[|s| - 1] in cs then TrimRight(s[..|s| - 1], cs) else s
  }

  /** Neither end of `s` is a character of `cs`. */
  predicate NoEdgeIn(s: string, cs: set<char>) { s == [] || (s[0] !in cs && s[|s| - 1] !in cs) }

  /** `s` is `r` with characters of `cs` before and after it, `r` starting at index `i`. */
  predicate Pads(s: string, r: string, i: nat, cs: set<char>)
  {
    OccursAt(s, r, i) &&
    (forall k :: 0 <= k < i ==> s[k] in cs) &&
    (forall k :: i + |r| <= k < |s| ==> s[k] in cs)
  }

  /** `s.strip(cs)`; with `cs == Whitespace` it is `s.strip()`. */
  function Strip(s: string, cs: set<char>): (r: string)
    ensures NoEdgeIn(r, cs)
    ensures exists i: nat :: Pads(s, r, i, cs)
  {
    var l := TrimLeft(s, cs);
    var r := TrimRight(l, cs);
    TrimBothPads(s, l, r, cs);
    r
  }

  /** Trimming the front and then the back leaves the core between the two paddings. */
  lemma TrimBothPads(s: string, l: string, r: string, cs: set<char>)
    requires |l| <= |s| && l == s[|s| - |l|..] && forall k :: 0 <= k < |s| - |l| ==> s[k] in cs
    requires |r| <= |l| && r == l[..|r|] && forall k :: |r| <= k < |l| ==> l[k] in cs
    ensures Pads(s, r, |s| - |l|, cs)
  {
    var i := |s| - |l|;
    assert s[i..][..|r|] == s[i..i + |r|];
    assert forall k :: i + |r| <= k < |s| ==> s[k] == l[k - i];
  }

  /** Stripping is the identity on a string whose ends are already clean. */
  lemma {:induction false} StripClean(s: string, cs: set<char>)
    requires NoEdgeIn(s, cs)
    ensures Strip(s, cs) == s
  {
    assert TrimLeft(s, cs) == s;
    assert TrimRight(s, cs) == s;
  }

  /** Stripping removes exactly the padding: a non-empty core with clean ends, between
      characters of `cs`, is what `strip` returns. */
  lemma StripUnique(s: string, n: string, i: nat, cs: set<char>)
    requires Pads(s, n, i, cs) && n != [] && NoEdgeIn(n, cs)
    ensures Strip(s, cs) == n
  {
    var r := Strip(s, cs);
    var j: nat :| Pads(s, r, j, cs);
    assert s[i] == n[0] && s[i + |n| - 1] == n[|n| - 1];
    assert s[i] !in cs;
    assert r != [];
    assert s[j] == r[0] && s[j + |r| - 1] == r[|r| - 1];
    assert j == i;
    assert j + |r| == i + |n|;
  }

  /** Characters of `cs` added around a string are stripped with its own padding. */
  lemma StripPadded(p: string, b: string, q: string, cs: set<char>)
    requires forall k :: 0 <= k < |p| ==> p[k] in cs
    requires forall k :: 0 <= k < |q| ==> q[k] in cs
    ensures Strip(p + b + q, cs) == Strip(b, cs)
  {
    if Strip(b, cs) != [] {
      StripPaddedCore(p, b, q, cs);
    } else {
      StripPaddedEmpty(p, b, q, cs);
    }
  }

  lemma StripPaddedCore(p: string, b: string, q: string, cs: set<char>)
    requires forall k :: 0 <= k < |p| ==> p[k] in cs
    requires forall k :: 0 <= k < |q| ==> q[k] in cs
    requires Strip(b, cs) != []
    ensures Strip(p + b + q, cs) == Strip(b, cs)
  {
    var n := Strip(b, cs);
    var j: nat :| Pads(b, n, j, cs);
    PadsWiden(p, b, q, n, j, cs);
    assert n != [] && NoEdgeIn(n, cs);
    StripUnique(p + b + q, n, |p| + j, cs);
  }

  lemma StripPaddedEmpty(p: string, b: string, q: string, cs: set<char>)
    requires forall k :: 0 <= k < |p| ==> p[k] in cs
    requires forall k :: 0 <= k < |q| ==> q[k] in cs
    requires Strip(b, cs) == []
    ensures Strip(p + b + q, cs) == []
  {
    StripEmpty(b, cs);
    AllIn(p, b, q, cs);
    StripEmpty(p + b + q, cs);
  }

  /** Padding stays padding when more of it is added on both sides. */
  lemma PadsWiden(p: string, b: string, q: string, n: string, j: nat, cs: set<char>)
    requires forall k :: 0 <= k < |p| ==> p[k] in cs
    requires forall k :: 0 <= k < |q| ==> q[k] in cs
    requires Pads(b, n, j, cs)
    ensures Pads(p + b + q, n, |p| + j, cs)
  {
    var s := p + b + q;
    assert forall k :: |p| <= k < |p| + |b| ==> s[k] == b[k - |p|];
    assert forall k :: |p| + |b| <= k < |s| ==> s[k] == q[k - |p| - |b|];
    assert s[|p| + j..|p| + j + |n|] == b[j..j + |n|];
  }

  lemma AllIn(p: string, b: string, q: string, cs: set<char>)
    requires forall k :: 0 <= k < |p| ==> p[k] in cs
    requires forall k :: 0 <= k < |b| ==> b[k] in cs
    requires forall k :: 0 <= k < |q| ==> q[k] in cs
    ensures forall k :: 0 <= k < |p + b + q| ==> (p + b + q)[k] in cs
  {
    var s := p + b + q;
    assert forall k :: |p| <= k < |p| + |b| ==> s[k] == b[k - |p|];
    assert forall k :: |p| + |b| <= k < |s| ==> s[k] == q[k - |p| - |b|];
  }

  /** Stripping twice is stripping once. */
  lemma StripIdempotent(s: string, cs: set<char>)
    ensures Strip(Strip(s, cs), cs) == Strip(s, cs)
  {
    StripClean(Strip(s, cs), cs);
  }

  /** Python treats `s.strip()` as false exactly when `s` consists of characters of `cs` only. */
  lemma StripEmpty(s: string, cs: set<char>)
    ensures Strip(s, cs) == [] <==> forall k :: 0 <= k < |s| ==> s[k] in cs
  {
    var r := Strip(s, cs);
    var i: nat :| Pads(s, r, i, cs);
    if r != [] {
      assert s[i] == r[0] && r[0] !in cs;
    }
  }

  /** The result of `title()` at position `i` of `s`: a cased character is upper-cased when the
      character before it is not cased (or it is first), lower-cased otherwise. */
  function TitleCharAt(s: string, i: nat): char
    requires i < |s|
  {
    if !IsCased(s[i]) then s[i]
    else if i > 0 && IsCased(s[i - 1]) then LowerChar(s[i])
    else UpperChar(s[i])
  }

  /** The scan of `title()`, given whether the character before `s` was cased. */
  function TitleFrom(s: string, prevCased: bool): (r: string)
    ensures |r| == |s|
    ensures forall i :: 0 < i < |s| ==> r[i] == TitleCharAt(s, i)
    ensures s != [] ==> r[0] == if !IsCased(s[0]) then s[0] else if prevCased then LowerChar(s[0]) else UpperChar(s[0])
  {
    if s == [] then []
    else
      var c := if !IsCased(s[0]) then s[0] else if prevCased then LowerChar(s[0]) else UpperChar(s[0]);
      var rest := TitleFrom(s[1..], IsCased(s[0]));
      assert forall i :: 1 < i < |s| ==> TitleCharAt(s[1..], i - 1) == TitleCharAt(s, i);
      [c] + rest
  }

  /** `s.title()` */
  function Title(s: string): (r: string)
    ensures |r| == |s| && forall i :: 0 <= i < |s| ==> r[i] == TitleCharAt(s, i)
  {
    TitleFrom(s, false)
  }

  /** Title-casing a title-cased string changes nothing. */
  lemma TitleIdempotent(s: string)
    ensures Title(Title(s)) == Title(s)
  {
    var t := Title(s);
    forall i | 0 <= i < |s| ensures Title(t)[i] == t[i] {
      assert IsCased(t[i]) == IsCased(s[i]);
      if i > 0 { assert IsCased(t[i - 1]) == IsCased(s[i - 1]); }
    }
  }

  /** `title()` only changes the case of letters: the text is the same up to case, and an end
      character that is not a letter stays what it was. */
  lemma TitleKeepsLetters(s: string, cs: set<char>)
    requires forall c :: c in cs ==> !IsCased(c)
    ensures Lower(Title(s)) == Lower(s)
    ensures NoEdgeIn(s, cs) ==> NoEdgeIn(Title(s), cs)
  {
    var t := Title(s);
    forall i | 0 <= i < |s| ensures LowerChar(t[i]) == LowerChar(s[i]) && (t[i] in cs <==> s[i] in cs) {
      assert t[i] == TitleCharAt(s, i);
    }
  }

  /** `s.split()[0]` for a string that does not start with whitespace: its longest prefix
      free of whitespace. */
  function LeadingToken(s: string): (r: string)
    ensures StartsWith(s, r)
    ensures forall k :: 0 <= k < |r| ==> r[k] !in Whitespace
    ensures |r| == |s| || s[|r|] in Whitespace
  {
    if s == [] || s[0] in Whitespace then [] else [s[0]] + LeadingToken(s[1..])
  }

  /** `s.split(sep)[0]`: the part of `s` before the first occurrence of `sep`, or all of `s`. */
  function BeforeFirst(s: string, sep: string): (r: string)
    requires sep != []
    ensures StartsWith(s, r)
    ensures forall i: nat :: i < |r| ==> !OccursAt(s, sep, i)
    ensures r == s || OccursAt(s, sep, |r|)
    decreases |s|
  {
    if StartsWith(s, sep) || s == [] then []
    else
      var rest := BeforeFirst(s[1..], sep);
      assert forall i: nat :: i < |s| - 1 ==> (OccursAt(s[1..], sep, i) <==> OccursAt(s, sep, i + 1)) by {
        forall i: nat | i < |s| - 1 ensures OccursAt(s[1..], sep, i) <==> OccursAt(s, sep, i + 1) {
          if i + |sep| <= |s| - 1 { assert s[1..][i..i + |sep|] == s[i + 1..i + 1 + |sep|]; }
        }
      }
      assert !OccursAt(s, sep, 0);
      assert forall i: nat :: 0 < i < 1 + |rest| ==> !OccursAt(s, sep, i) by {
        forall i: nat | 0 < i < 1 + |rest| ensures !OccursAt(s, sep, i) {
          assert !OccursAt(s[1..], sep, i - 1);
        }
      }
      [s[0]] + rest
  }

  predicate AllDigits(t: string) { forall k :: 0 <= k < |t| ==> IsDigit(t[k]) }

  /** The value of a decimal numeral. */
  function DecimalValue(t: string): nat
    requires AllDigits(t)
  {
    if t == [] then 0 else 10 * DecimalValue(t[..|t| - 1]) + (t[|t| - 1] as int - '0' as int)
  }

  /** `int(t)` for a token `t` that starts with a digit: the numeral's value, or nothing when
      Python would raise `ValueError`. */
  function ParseInt(t: string): (r: Option<nat>)
    ensures r.Some? <==> t != [] && AllDigits(t)
  {
    if t != [] && AllDigits(t) then Some(DecimalValue(t)) else None
  }

  function Pow10(n: nat): (r: nat)
    ensures r >= 1
  {
    if n == 0 then 1 else 10 * Pow10(n - 1)
  }

  lemma {:induction false} DecimalBounds(t: string)
    requires AllDigits(t)
    ensures DecimalValue(t) < Pow10(|t|)
    ensures t != [] && t[0] != '0' ==> Pow10(|t| - 1) <= DecimalValue(t)
  {
    if t != [] {
      var init := t[..|t| - 1];
      DecimalBounds(init);
      if |t| > 1 && t[0] != '0' {
        assert init[0] == t[0];
      }
    }
  }

  lemma {:induction false} Pow10Monotone(m: nat, n: nat)
    requires m <= n
    ensures Pow10(m) <= Pow10(n)
  {
    if m < n { Pow10Monotone(m, n - 1); }
  }

  /** `int()` orders numerals by value, not text: a numeral without a leading zero is smaller
      than any longer one, so "2" sorts before "10". */
  lemma ShorterNumeralIsSmaller(a: string, b: string)
    requires a != [] && AllDigits(a) && AllDigits(b)
    requires b != [] && b[0] != '0' && |a| < |b|
    ensures ParseInt(a).value < ParseInt(b).value
  {
    DecimalBounds(a);
    DecimalBounds(b);
    Pow10Monotone(|a|, |b| - 1);
  }
}
