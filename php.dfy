/**
 * The handful of PHP language semantics the backend relies on: optional values
 * (null), the truthiness of strings, and the string functions trim, explode,
 * implode and Str::lower, plus the substring test behind `LIKE '%kw%'`.
 */
module Php {

  /** A PHP value that may be null. */
  datatype Option<+T> = None | Some(value: T)

  /** One byte of a binary string. */
  type byte = b: int | 0 <= b < 256

  /** PHP treats exactly two strings as false: "" and "0". */
  predicate FalsyString(s: string) {
    s == "" || s == "0"
  }

  /** `if ($s)` for a nullable string. */
  predicate Truthy(s: Option<string>) {
    s.Some? && !FalsyString(s.value)
  }

  /** A binary string is falsy when it is empty or the one byte "0" (0x30). */
  predicate TruthyBytes(b: Option<seq<byte>>) {
    b.Some? && b.value != [] && b.value != [48]
  }

  /** The characters PHP's trim() strips by default: " \t\n\r\0\x0B". */
  predicate IsTrimChar(c: char) {
    c == ' ' || c == '\t' || c == '\n' || c == '\r' || c == '\0' || c == '\U{000B}'
  }

  /** The length of the run of trim characters at the front. */
  function LeadingTrim(s: string): (n: nat)
    ensures n <= |s|
    ensures forall k :: 0 <= k < n ==> IsTrimChar(s[k])
    ensures n < |s| ==> !IsTrimChar(s[n])
  {
    if s != [] && IsTrimChar(s[0]) then 1 + LeadingTrim(s[1..]) else 0
  }

  /** Where the run of trim characters at the back begins. */
  function TrailingTrim(s: string): (n: nat)
    ensures n <= |s|
    ensures forall k :: n <= k < |s| ==> IsTrimChar(s[k])
    ensures 0 < n ==> !IsTrimChar(s[n - 1])
  {
    if s != [] && IsTrimChar(s[|s| - 1]) then TrailingTrim(s[..|s| - 1]) else |s|
  }

  /** Strips trim characters from the front. */
  function TrimStart(s: string): string {
    s[LeadingTrim(s)..]
  }

  /** Strips trim characters from the back. */
  function TrimEnd(s: string): string {
    s[..TrailingTrim(s)]
  }

  /** PHP trim($s). */
  function Trim(s: string): string {
    TrimEnd(TrimStart(s))
  }

  /** trim() removes a run of trim characters from each end and nothing else. */
  lemma TrimIsInnerSlice(s: string)
    ensures exists i, j :: 0 <= i <= j <= |s| && Trim(s) == s[i..j]
                           && (forall k :: 0 <= k < i ==> IsTrimChar(s[k]))
                           && (forall k :: j <= k < |s| ==> IsTrimChar(s[k]))
    ensures Trim(s) == [] || (!IsTrimChar(Trim(s)[0]) && !IsTrimChar(Trim(s)[|Trim(s)| - 1]))
  {
    var i := LeadingTrim(s);
    var a := s[i..];
    var e := TrailingTrim(a);
    var j := i + e;
    assert Trim(s) == s[i..j];
    forall k | j <= k < |s| ensures IsTrimChar(s[k]) {
      assert s[k] == a[k - i];
    }
  }

  /** trim() is idempotent. */
  lemma TrimIdempotent(s: string)
    ensures Trim(Trim(s)) == Trim(s)
  {
    var t := Trim(s);
    TrimIsInnerSlice(s);
    assert LeadingTrim(t) == 0;
    assert TrimStart(t) == t;
    assert TrailingTrim(t) == |t|;
  }

  /** PHP explode(',', $s): the pieces between commas, always at least one. */
  function Explode(s: string): (r: seq<string>)
    ensures |r| >= 1
  {
    if s == [] then [""]
    else
      var rest := Explode(s[1..]);
      if s[0] == ',' then [""] + rest else [[s[0]] + rest[0]] + rest[1..]
  }

  /** PHP implode(',', $parts). */
  function Implode(parts: seq<string>): string {
    if parts == [] then ""
    else if |parts| == 1 then parts[0]
    else parts[0] + "," + Implode(parts[1..])
  }

  /** No piece of explode(',', $s) contains a comma. */
  lemma {:induction false} ExplodePiecesHaveNoComma(s: string)
    ensures forall i :: 0 <= i < |Explode(s)| ==> ',' !in Explode(s)[i]
  {
    if s != [] {
      ExplodePiecesHaveNoComma(s[1..]);
      var rest := Explode(s[1..]);
      if s[0] != ',' {
        assert ',' !in [s[0]] + rest[0];
      }
    }
  }

  /** implode(',', explode(',', $s)) == $s. */
  lemma {:induction false} ImplodeExplode(s: string)
    ensures Implode(Explode(s)) == s
  {
    if s != [] {
      ImplodeExplode(s[1..]);
      var rest := Explode(s[1..]);
      if s[0] == ',' {
        assert Explode(s) == [""] + rest;
      } else {
        if |rest| == 1 {
          assert Implode(Explode(s)) == [s[0]] + rest[0];
        } else {
          assert Explode(s)[1..] == rest[1..];
          assert Implode(Explode(s)) == [s[0]] + rest[0] + "," + Implode(rest[1..]);
        }
      }
    }
  }

  /** explode(',', implode(',', $parts)) gives the parts back when none holds a comma. */
  lemma {:induction false} ExplodeImplode(parts: seq<string>)
    requires |parts| >= 1
    requires forall i :: 0 <= i < |parts| ==> ',' !in parts[i]
    ensures Explode(Implode(parts)) == parts
  {
    if |parts| == 1 {
      ExplodeCommaFree(parts[0], []);
    } else {
      ExplodeImplode(parts[1..]);
      ExplodeCommaFree(parts[0], parts[1..]);
    }
  }

  /** explode on a comma-free prefix followed by "," and a tail (or nothing). */
  lemma {:induction false} ExplodeCommaFree(p: string, tail: seq<string>)
    requires ',' !in p
    requires tail != [] ==> Explode(Implode(tail)) == tail
    ensures tail == [] ==> Explode(p) == [p]
    ensures tail != [] ==> Explode(p + "," + Implode(tail)) == [p] + tail
  {
    if p == [] {
      if tail != [] {
        assert ("" + "," + Implode(tail))[1..] == Implode(tail);
      }
    } else {
      ExplodeCommaFree(p[1..], tail);
      if tail == [] {
        assert p[0] != ',' && Explode(p[1..]) == [p[1..]];
        assert [p[0]] + p[1..] == p;
      } else {
        var s := p + "," + Implode(tail);
        assert s[1..] == p[1..] + "," + Implode(tail);
        assert [p[0]] + p[1..] == p;
      }
    }
  }

  /** Str::lower on ASCII letters; other characters are left unchanged. */
  function LowerChar(c: char): char {
    if 'A' <= c <= 'Z' then (c as int + 32) as char else c
  }

  /** Str::lower($s). */
  function Lower(s: string): (r: string)
    ensures |r| == |s|
    ensures forall i :: 0 <= i < |s| ==> r[i] == LowerChar(s[i])
  {
    if s == [] then [] else [LowerChar(s[0])] + Lower(s[1..])
  }

  /** `sub` occurs in `s` starting at index i. */
  predicate OccursAt(s: string, sub: string, i: nat) {
    i + |sub| <= |s| && s[i..i + |sub|] == sub
  }

  /** `sub` occurs in `s` as a contiguous substring. */
  predicate ContainsSubstring(s: string, sub: string) {
    exists i: nat :: i <= |s| && OccursAt(s, sub, i)
  }

  /** The decimal digits of n, as PHP prints an integer. */
  function Digits(n: nat): (r: string)
    ensures |r| >= 1
    ensures forall i :: 0 <= i < |r| ==> '0' <= r[i] <= '9'
  {
    if n < 10 then [('0' as int + n) as char] else Digits(n / 10) + [('0' as int + n % 10) as char]
  }
}
