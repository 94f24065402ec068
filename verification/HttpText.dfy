/**
 Text scanning used by both HTTP parsers: substring search, case-insensitive prefixes, header lines
 and decimal numbers, with the search loops of the source refining their definitions.
 */
module HttpText {
  import opened Arith
  import opened Bits
  import opened Wrappers

  const CRLF: seq<byte> := [13, 10]
  const CRLFCRLF: seq<byte> := [13, 10, 13, 10]
  const SPACE: byte := 32

  /** The bytes of an ASCII literal. */
  function Ascii(s: string): (b: seq<byte>)
    ensures |b| == |s|
  {
    seq(|s|, i requires 0 <= i < |s| => (s[i] as int) % 256)
  }

  // ----- Searching -----

  predicate MatchAt(s: seq<byte>, pat: seq<byte>, i: nat)
  {
    i + |pat| <= |s| && s[i..i + |pat|] == pat
  }

  /** `find`: the first match at or after `from`. */
  function Find(s: seq<byte>, pat: seq<byte>, from: nat): (r: Option<nat>)
    ensures r.Some? ==> from <= r.value && MatchAt(s, pat, r.value)
    ensures r.Some? ==> forall i :: from <= i < r.value ==> !MatchAt(s, pat, i)
    ensures r.None? ==> forall i :: from <= i ==> !MatchAt(s, pat, i)
    decreases |s| - from
  {
    if from + |pat| > |s| then None
    else if MatchAt(s, pat, from) then Some(from)
    else Find(s, pat, from + 1)
  }

  /** The search loop. */
  method Search(s: seq<byte>, pat: seq<byte>, from: nat) returns (r: Option<nat>)
    ensures r == Find(s, pat, from)
  {
    var i := from;
    while i + |pat| <= |s|
      invariant from <= i && Find(s, pat, from) == Find(s, pat, i)
      decreases |s| - i
    {
      if s[i..i + |pat|] == pat {
        return Some(i);
      }
      i := i + 1;
    }
    return None;
  }

  /** The first match is determined by being a match with none before it. */
  lemma FindUnique(s: seq<byte>, pat: seq<byte>, from: nat, i: nat)
    requires from <= i && MatchAt(s, pat, i)
    requires forall j :: from <= j < i ==> !MatchAt(s, pat, j)
    ensures Find(s, pat, from) == Some(i)
  {
    var r := Find(s, pat, from);
    assert r.Some?;
  }

  lemma NoMatch(s: seq<byte>, pat: seq<byte>, i: nat)
    requires pat != [] && i < |s| && s[i] != pat[0]
    ensures !MatchAt(s, pat, i)
  {
    if i + |pat| <= |s| {
      assert s[i..i + |pat|][0] == s[i];
    }
  }

  lemma MatchPrefix(s: seq<byte>, t: seq<byte>, pat: seq<byte>, i: nat)
    requires i + |pat| <= |s|
    ensures MatchAt(s + t, pat, i) == MatchAt(s, pat, i)
  {
    assert (s + t)[i..i + |pat|] == s[i..i + |pat|];
  }

  /** Appended bytes do not move a match that was found. */
  lemma FindStable(s: seq<byte>, t: seq<byte>, pat: seq<byte>, from: nat)
    requires Find(s, pat, from).Some?
    ensures Find(s + t, pat, from) == Find(s, pat, from)
  {
    var i := Find(s, pat, from).value;
    MatchPrefix(s, t, pat, i);
    forall j | from <= j < i ensures !MatchAt(s + t, pat, j) {
      MatchPrefix(s, t, pat, j);
    }
    FindUnique(s + t, pat, from, i);
  }

  /** A search from `from` on looks at nothing before `from`. */
  lemma {:induction false} FindSuffix(s: seq<byte>, t: seq<byte>, pat: seq<byte>, from: nat)
    requires |s| == |t| && from <= |s| && s[from..] == t[from..]
    ensures Find(s, pat, from) == Find(t, pat, from)
    decreases |s| - from
  {
    if from + |pat| <= |s| {
      assert s[from..from + |pat|] == s[from..][..|pat|] && t[from..from + |pat|] == t[from..][..|pat|];
      if !MatchAt(s, pat, from) && from < |s| {
        assert s[from + 1..] == s[from..][1..] && t[from + 1..] == t[from..][1..];
        FindSuffix(s, t, pat, from + 1);
      }
    }
  }

  // ----- Case-insensitive prefixes -----

  function Lower(b: byte): byte
  {
    if 65 <= b <= 90 then b + 32 else b
  }

  predicate IStartsWith(hay: seq<byte>, needle: seq<byte>)
  {
    |needle| <= |hay| && forall i :: 0 <= i < |needle| ==> Lower(hay[i]) == Lower(needle[i])
  }

  /** `istarts_with`. */
  method CheckPrefix(hay: seq<byte>, needle: seq<byte>) returns (ok: bool)
    ensures ok <==> IStartsWith(hay, needle)
  {
    if |hay| < |needle| {
      return false;
    }
    var i := 0;
    while i < |needle|
      invariant i <= |needle| && forall k :: 0 <= k < i ==> Lower(hay[k]) == Lower(needle[k])
    {
      if Lower(hay[i]) != Lower(needle[i]) {
        return false;
      }
      i := i + 1;
    }
    return true;
  }

  lemma IStartsWithPrefix(hay: seq<byte>, more: seq<byte>, needle: seq<byte>)
    requires |needle| <= |hay|
    ensures IStartsWith(hay + more, needle) == IStartsWith(hay, needle)
  {
    if IStartsWith(hay + more, needle) {
      forall i | 0 <= i < |needle| ensures Lower(hay[i]) == Lower(needle[i]) {
        assert (hay + more)[i] == hay[i];
      }
    }
  }

  // ----- Spaces -----

  function TrimLeft(s: seq<byte>): (t: seq<byte>)
    ensures t != [] ==> t[0] != SPACE
  {
    if s != [] && s[0] == SPACE then TrimLeft(s[1..]) else s
  }

  function TrimRight(s: seq<byte>): (t: seq<byte>)
    ensures t != [] ==> t[|t| - 1] != SPACE
    ensures |t| <= |s| && t == s[..|t|]
  {
    if s != [] && s[|s| - 1] == SPACE then TrimRight(s[..|s| - 1]) else s
  }

  function Trim(s: seq<byte>): seq<byte> { TrimRight(TrimLeft(s)) }

  // ----- Decimal numbers -----

  predicate IsDigit(b: byte) { 48 <= b <= 57 }

  predicate AllDigits(s: seq<byte>)
  {
    forall i :: 0 <= i < |s| ==> IsDigit(s[i])
  }

  function Digit(b: byte): (d: nat)
    requires IsDigit(b)
    ensures d < 10
  {
    b - 48
  }

  function DecimalDigits(n: nat): (s: seq<byte>)
    ensures s != [] && AllDigits(s)
  {
    if n < 10 then [48 + n] else DecimalDigits(n / 10) + [48 + n % 10]
  }

  /** The value of the leading digits, in 64-bit arithmetic: accumulation wraps. */
  function ParseDecimal(s: seq<byte>, acc: nat): (n: nat)
    requires acc < M64
    ensures n < M64
    decreases |s|
  {
    if s == [] || !IsDigit(s[0]) then acc
    else ParseDecimal(s[1..], (acc * 10 + Digit(s[0])) % M64)
  }

  method ReadDecimal(s: seq<byte>) returns (n: nat)
    ensures n == ParseDecimal(s, 0)
  {
    n := 0;
    var i := 0;
    while i < |s| && IsDigit(s[i])
      invariant i <= |s| && n < M64 && ParseDecimal(s, 0) == ParseDecimal(s[i..], n)
    {
      assert s[i..][1..] == s[i + 1..];
      n := (n * 10 + Digit(s[i])) % M64;
      i := i + 1;
    }
  }

  function DecimalValue(s: seq<byte>, acc: nat): nat
    requires AllDigits(s)
    decreases |s|
  {
    if s == [] then acc else DecimalValue(s[1..], acc * 10 + Digit(s[0]))
  }

  lemma {:induction false} DecimalValueGrows(s: seq<byte>, acc: nat)
    requires AllDigits(s)
    ensures DecimalValue(s, acc) >= acc
    decreases |s|
  {
    if s != [] {
      DecimalValueGrows(s[1..], acc * 10 + Digit(s[0]));
    }
  }

  lemma {:induction false} DecimalValueLast(s: seq<byte>, d: byte, acc: nat)
    requires IsDigit(d) && AllDigits(s)
    ensures DecimalValue(s + [d], acc) == DecimalValue(s, acc) * 10 + Digit(d)
    decreases |s|
  {
    if s == [] {
      assert s + [d] == [d] && [d][1..] == [];
    } else {
      assert (s + [d])[1..] == s[1..] + [d];
      DecimalValueLast(s[1..], d, acc * 10 + Digit(s[0]));
    }
  }

  lemma {:induction false} DigitsHaveValue(n: nat)
    ensures DecimalValue(DecimalDigits(n), 0) == n
    decreases n
  {
    if n >= 10 {
      DigitsHaveValue(n / 10);
      DecimalValueLast(DecimalDigits(n / 10), 48 + n % 10, 0);
    } else {
      assert DecimalDigits(n)[1..] == [];
    }
  }

  /** Digits whose value fits 64 bits are read back exactly, whatever non-digit follows. */
  lemma {:induction false} ParseDecimalExact(s: seq<byte>, rest: seq<byte>, acc: nat)
    requires AllDigits(s)
    requires rest == [] || !IsDigit(rest[0])
    requires DecimalValue(s, acc) < M64 && acc < M64
    ensures ParseDecimal(s + rest, acc) == DecimalValue(s, acc)
    decreases |s|
  {
    if s == [] {
      assert s + rest == rest;
    } else {
      var next := acc * 10 + Digit(s[0]);
      assert (s + rest)[0] == s[0] && (s + rest)[1..] == s[1..] + rest;
      DecimalValueGrows(s[1..], next);
      assert next % M64 == next;
      ParseDecimalExact(s[1..], rest, next);
    }
  }

  /** Digits of any length are read modulo 2^64, whatever non-digit follows. */
  lemma {:induction false} ParseDecimalWraps(s: seq<byte>, rest: seq<byte>, acc: nat)
    requires AllDigits(s) && (rest == [] || !IsDigit(rest[0]))
    ensures ParseDecimal(s + rest, acc % M64) == DecimalValue(s, acc) % M64
    decreases |s|
  {
    if s == [] {
      assert s + rest == rest;
    } else {
      var d := Digit(s[0]);
      assert (s + rest)[0] == s[0] && (s + rest)[1..] == s[1..] + rest;
      WrapsOnce(acc, 10, d);
      ParseDecimalWraps(s[1..], rest, acc * 10 + d);
    }
  }

  lemma WrapsOnce(acc: nat, base: nat, d: nat)
    ensures (acc % M64 * base + d) % M64 == (acc * base + d) % M64
  {
    var k, r := acc / M64, acc % M64;
    assert acc == k * M64 + r;
    Spread(k, r, base, d);
    ModShift(r * base + d, k * base);
  }

  lemma Spread(k: nat, r: nat, base: nat, d: nat)
    ensures (k * M64 + r) * base + d == (r * base + d) + (k * base) * M64
  {
    assert (k * M64 + r) * base == k * M64 * base + r * base;
    assert k * M64 * base == k * base * M64;
  }

  lemma {:induction false} ModShift(x: nat, n: nat)
    ensures (x + n * M64) % M64 == x % M64
    decreases n
  {
    if n > 0 {
      ModShift(x, n - 1);
      assert x + n * M64 == (x + (n - 1) * M64) + M64;
    }
  }

  /** A length written by the request builder is read back by the response parser. */
  lemma DecimalRoundTrip(n: nat, rest: seq<byte>)
    requires n < M64 && (rest == [] || !IsDigit(rest[0]))
    ensures ParseDecimal(DecimalDigits(n) + rest, 0) == n
  {
    DigitsHaveValue(n);
    ParseDecimalExact(DecimalDigits(n), rest, 0);
  }

  // ----- Bounded output -----

  /** `put`: append `s` to the first `o` bytes of `dst` if it fits. */
  method Put(dst: array<byte>, o: nat, s: seq<byte>, ghost done: seq<byte>) returns (ok: bool, next: nat)
    requires o <= dst.Length && dst[..o] == done
    modifies dst
    ensures ok <==> |done| + |s| <= dst.Length
    ensures ok ==> next <= dst.Length && dst[..next] == done + s
  {
    next := o;
    if o + |s| > dst.Length {
      return false, o;
    }
    forall k | 0 <= k < |s| {
      dst[o + k] := s[k];
    }
    next := o + |s|;
    assert dst[..next] == done + s;
    return true, next;
  }
}
