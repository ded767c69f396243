/**
 * The string half of PostService::resolveTagIds: a comma-separated tag list is
 * exploded, each piece trimmed, falsy pieces dropped by filter(), duplicates
 * dropped by unique() keeping the first occurrence, and at most the first ten
 * kept by take(10).
 */
module TagList {
  import opened Php

  /** take(10) in resolveTagIds. */
  const MaxTags: nat := 10

  /** ->map(fn($name) => trim($name)) */
  function TrimAll(pieces: seq<string>): (r: seq<string>)
    ensures |r| == |pieces|
    ensures forall i :: 0 <= i < |r| ==> r[i] == Trim(pieces[i])
  {
    seq(|pieces|, i requires 0 <= i < |pieces| => Trim(pieces[i]))
  }

  /** ->filter(): keeps the pieces PHP considers true, in order. */
  function KeepTruthy(names: seq<string>): (r: seq<string>)
    ensures |r| <= |names|
  {
    if names == [] then []
    else if FalsyString(names[0]) then KeepTruthy(names[1..])
    else [names[0]] + KeepTruthy(names[1..])
  }

  /** filter() keeps exactly the truthy pieces. */
  lemma {:induction false} KeepTruthyElements(names: seq<string>)
    ensures forall x :: x in KeepTruthy(names) <==> x in names && !FalsyString(x)
  {
    if names != [] {
      KeepTruthyElements(names[1..]);
      assert forall x :: x in names <==> x == names[0] || x in names[1..];
    }
  }

  /** filter() distributes over concatenation: the truthy pieces stay in order, with their repeats. */
  lemma {:induction false} KeepTruthyConcat(a: seq<string>, b: seq<string>)
    ensures KeepTruthy(a + b) == KeepTruthy(a) + KeepTruthy(b)
  {
    if a == [] {
      assert a + b == b;
    } else {
      var ab := a + b;
      var h, t := a[0], a[1..];
      assert ab[0] == h;
      assert ab[1..] == t + b;
      KeepTruthyConcat(t, b);
      var y, z := KeepTruthy(t), KeepTruthy(b);
      assert KeepTruthy(ab[1..]) == y + z;
      if !FalsyString(h) {
        assert KeepTruthy(ab) == [h] + (y + z);
        assert KeepTruthy(a) == [h] + y;
        assert [h] + (y + z) == ([h] + y) + z;
      }
    }
  }

  /** filter() keeps a single piece exactly when it is truthy. */
  lemma KeepTruthySingle(x: string)
    ensures KeepTruthy([x]) == if FalsyString(x) then [] else [x]
  {
    assert [x][1..] == [];
  }

  /** The index of the first occurrence of x in s, or |s| when x does not occur. */
  function FirstIndex(s: seq<string>, x: string): (k: nat)
    ensures k <= |s|
    ensures k < |s| <==> x in s
    ensures k < |s| ==> s[k] == x
    ensures forall i :: 0 <= i < k ==> s[i] != x
  {
    if s == [] then 0 else if s[0] == x then 0 else 1 + FirstIndex(s[1..], x)
  }

  /** The elements of r appear in the order of their first occurrence in s. */
  predicate InFirstOccurrenceOrder(r: seq<string>, s: seq<string>) {
    forall i, j :: 0 <= i < j < |r| ==> FirstIndex(s, r[i]) < FirstIndex(s, r[j])
  }

  /** No element occurs twice. */
  predicate NoDuplicates(s: seq<string>) {
    forall i, j :: 0 <= i < j < |s| ==> s[i] != s[j]
  }

  /**
   * ->unique() over the elements not yet in `seen`, keeping first occurrences.
   * Elements are compared as strings; PHP's loose comparison, which also takes
   * "1" and "01" for equal, is not modelled.
   */
  function UniqueFrom(s: seq<string>, seen: set<string>): seq<string> {
    if s == [] then []
    else if s[0] in seen then UniqueFrom(s[1..], seen)
    else [s[0]] + UniqueFrom(s[1..], seen + {s[0]})
  }

  /** ->unique() */
  function Unique(s: seq<string>): seq<string> {
    UniqueFrom(s, {})
  }

  /** ->take(n) */
  function Take(s: seq<string>, n: nat): (r: seq<string>)
    ensures |r| <= n && |r| <= |s| && r == s[..|r|]
    ensures |s| <= n ==> r == s
    ensures |s| > n ==> |r| == n
  {
    if |s| <= n then s else s[..n]
  }

  /** The non-empty, trimmed, comma-separated pieces of the raw tag list, before deduplication. */
  function Candidates(raw: string): seq<string> {
    KeepTruthy(TrimAll(Explode(raw)))
  }

  /** The tag names resolveTagIds looks up or creates, in order. */
  function TagNames(raw: string): seq<string> {
    Take(Unique(Candidates(raw)), MaxTags)
  }

  /** unique() keeps exactly the elements not already seen. */
  lemma {:induction false} UniqueFromElements(s: seq<string>, seen: set<string>)
    ensures forall x :: x in UniqueFrom(s, seen) <==> x in s && x !in seen
  {
    if s != [] {
      if s[0] in seen {
        UniqueFromElements(s[1..], seen);
      } else {
        UniqueFromElements(s[1..], seen + {s[0]});
      }
      assert forall x :: x in s <==> x == s[0] || x in s[1..];
    }
  }

  /** unique() never repeats an element. */
  lemma {:induction false} UniqueFromNoDuplicates(s: seq<string>, seen: set<string>)
    ensures NoDuplicates(UniqueFrom(s, seen))
  {
    if s != [] {
      if s[0] in seen {
        UniqueFromNoDuplicates(s[1..], seen);
      } else {
        UniqueFromNoDuplicates(s[1..], seen + {s[0]});
        UniqueFromElements(s[1..], seen + {s[0]});
        var rest := UniqueFrom(s[1..], seen + {s[0]});
        assert s[0] !in rest;
        assert UniqueFrom(s, seen) == [s[0]] + rest;
      }
    }
  }

  /** unique() lists its elements in the order of their first occurrence. */
  lemma {:induction false} UniqueFromOrder(s: seq<string>, seen: set<string>)
    ensures InFirstOccurrenceOrder(UniqueFrom(s, seen), s)
  {
    if s != [] {
      var seen' := if s[0] in seen then seen else seen + {s[0]};
      var rest := UniqueFrom(s[1..], seen');
      UniqueFromOrder(s[1..], seen');
      UniqueFromElements(s[1..], seen');
      forall k | 0 <= k < |rest| ensures rest[k] in s[1..] && rest[k] != s[0] {
        assert rest[k] in rest;
      }
      OrderAfterHead(s, rest);
      if s[0] !in seen {
        OrderWithHead(s, rest);
      }
    }
  }

  /** Elements that occur after the head of s, and not as it, keep their order when the head is put back. */
  lemma OrderAfterHead(s: seq<string>, rest: seq<string>)
    requires s != [] && InFirstOccurrenceOrder(rest, s[1..])
    requires forall k :: 0 <= k < |rest| ==> rest[k] in s[1..] && rest[k] != s[0]
    ensures InFirstOccurrenceOrder(rest, s)
    ensures forall k :: 0 <= k < |rest| ==> FirstIndex(s, rest[k]) == 1 + FirstIndex(s[1..], rest[k])
  {
    forall k | 0 <= k < |rest| ensures FirstIndex(s, rest[k]) == 1 + FirstIndex(s[1..], rest[k]) {
      assert s[0] != rest[k];
    }
  }

  /** Putting the head of s in front of elements that first occur later keeps the order. */
  lemma OrderWithHead(s: seq<string>, rest: seq<string>)
    requires s != [] && InFirstOccurrenceOrder(rest, s)
    requires forall k :: 0 <= k < |rest| ==> FirstIndex(s, rest[k]) >= 1
    ensures InFirstOccurrenceOrder([s[0]] + rest, s)
  {
    var r := [s[0]] + rest;
    forall i, j | 0 <= i < j < |r| ensures FirstIndex(s, r[i]) < FirstIndex(s, r[j]) {
      assert r[j] == rest[j - 1];
      if i > 0 {
        assert r[i] == rest[i - 1];
      }
    }
  }

  /**
   * Take(Unique(c), MaxTags) is the first ten distinct elements of c in order
   * of first appearance: none repeated, each from c, and any element of c left
   * out comes after all ten kept ones.
   */
  lemma FirstDistinct(c: seq<string>)
    ensures var r := Take(Unique(c), MaxTags);
            && |r| <= MaxTags
            && NoDuplicates(r)
            && (forall i :: 0 <= i < |r| ==> r[i] in c)
            && InFirstOccurrenceOrder(r, c)
            && (forall x :: x in c && x !in r ==>
                  |r| == MaxTags && forall i :: 0 <= i < |r| ==> FirstIndex(c, r[i]) < FirstIndex(c, x))
  {
    var u := Unique(c);
    var r := Take(u, MaxTags);
    UniqueFromElements(c, {});
    UniqueFromNoDuplicates(c, {});
    UniqueFromOrder(c, {});
    forall i | 0 <= i < |r| ensures r[i] == u[i] && r[i] in c { }
    forall i, j | 0 <= i < j < |r| ensures FirstIndex(c, r[i]) < FirstIndex(c, r[j]) {
      assert r[i] == u[i] && r[j] == u[j];
    }
    assert InFirstOccurrenceOrder(r, c);
    forall x | x in c && x !in r
      ensures |r| == MaxTags && forall i :: 0 <= i < |r| ==> FirstIndex(c, r[i]) < FirstIndex(c, x)
    {
      assert x in u;
      var k :| 0 <= k < |u| && u[k] == x;
      assert k >= |r|;
      forall i | 0 <= i < |r| ensures FirstIndex(c, r[i]) < FirstIndex(c, x) {
        assert r[i] == u[i] && i < k;
      }
    }
  }

  /** Every candidate is a truthy, comma-free, trimmed piece of the list. */
  lemma CandidateIsTrimmedPiece(raw: string, x: string)
    requires x in Candidates(raw)
    ensures !FalsyString(x) && ',' !in x
    ensures exists k :: 0 <= k < |Explode(raw)| && x == Trim(Explode(raw)[k])
  {
    var pieces := Explode(raw);
    var t := TrimAll(pieces);
    KeepTruthyElements(t);
    assert x in t;
    var k :| 0 <= k < |t| && t[k] == x;
    ExplodePiecesHaveNoComma(raw);
    TrimIsInnerSlice(pieces[k]);
  }

  /**
   * The tag names are the distinct candidates in order of first appearance,
   * cut after the first ten; each is a truthy, comma-free, trimmed piece of
   * the list.
   */
  lemma TagNamesAreFirstDistinctCandidates(raw: string)
    ensures var r := TagNames(raw);
            var c := Candidates(raw);
            && |r| <= MaxTags
            && NoDuplicates(r)
            && (forall i :: 0 <= i < |r| ==> r[i] in c && !FalsyString(r[i]) && ',' !in r[i])
            && InFirstOccurrenceOrder(r, c)
            && (forall x :: x in c && x !in r ==>
                  |r| == MaxTags && forall i :: 0 <= i < |r| ==> FirstIndex(c, r[i]) < FirstIndex(c, x))
  {
    var r := TagNames(raw);
    FirstDistinct(Candidates(raw));
    forall i | 0 <= i < |r| ensures !FalsyString(r[i]) && ',' !in r[i] {
      CandidateIsTrimmedPiece(raw, r[i]);
    }
  }

  /** A falsy list ("" or "0") names no tags at all. */
  lemma TagNamesOfFalsyString(raw: string)
    requires FalsyString(raw)
    ensures TagNames(raw) == []
  {
    ExplodeCommaFree(raw, []);
    assert Trim(raw) == raw;
    assert TrimAll([raw]) == [raw];
    assert KeepTruthy([raw]) == [];
  }
}
