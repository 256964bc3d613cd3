/** Shared vocabulary: optional values and the string operations the
    backend (Go `strings`) and the frontend (JavaScript `String`) rely on. */
module Basics {

  datatype Option<+T> = None | Some(value: T)

  /** A value, or the error a Go function returns in its place. */
  datatype Result<+T, +E> = Ok(value: T) | Err(error: E)

  /** `strings.HasPrefix(s, p)` / `s.startsWith(p)`. */
  predicate IsPrefix(p: string, s: string) {
    |p| <= |s| && s[..|p|] == p
  }

  /** `strings.Contains(s, sub)` / `s.includes(sub)`, by scanning the
      start positions of `s` left to right. */
  predicate Contains(s: string, sub: string)
    decreases |s|
  {
    IsPrefix(sub, s) || (|s| > 0 && Contains(s[1..], sub))
  }

  /** The reading of `Contains` a caller expects: `sub` occurs at some offset. */
  ghost predicate OccursAt(s: string, sub: string, i: int) {
    0 <= i && i + |sub| <= |s| && s[i..i + |sub|] == sub
  }

  lemma {:induction false} ContainsIffOccurs(s: string, sub: string)
    ensures Contains(s, sub) <==> exists i :: OccursAt(s, sub, i)
    decreases |s|
  {
    if IsPrefix(sub, s) {
      assert OccursAt(s, sub, 0);
    } else if |s| == 0 {
      assert |sub| > 0;
    } else {
      ContainsIffOccurs(s[1..], sub);
      if Contains(s[1..], sub) {
        var i :| OccursAt(s[1..], sub, i);
        assert s[i + 1..i + 1 + |sub|] == s[1..][i..i + |sub|];
        assert OccursAt(s, sub, i + 1);
      } else {
        assert !OccursAt(s, sub, 0);
        forall i | 0 < i && i + |sub| <= |s| ensures !OccursAt(s, sub, i) {
          assert s[1..][i - 1..i - 1 + |sub|] == s[i..i + |sub|];
          assert !OccursAt(s[1..], sub, i - 1);
        }
      }
    }
  }

  /** The empty string occurs in every string; nothing longer than `s` does. */
  lemma {:induction false} ContainsBounds(s: string, sub: string)
    ensures sub == [] ==> Contains(s, sub)
    ensures |sub| > |s| ==> !Contains(s, sub)
  {
    ContainsIffOccurs(s, sub);
    if sub == [] {
      assert OccursAt(s, sub, 0);
    }
  }

  /** Lower-casing of one code point, for the scripts the site uses:
      ASCII A-Z, Cyrillic А-Я and the Cyrillic range Ѐ-Џ (which holds Ё). */
  function LowerChar(c: char): (r: char)
    ensures c == r || ('A' <= c <= 'Z' && 'a' <= r <= 'z') || ('Ѐ' <= c <= 'Я' && 'а' <= r <= 'џ')
  {
    if 'A' <= c <= 'Z' then (c as int + 32) as char
    else if 'А' <= c <= 'Я' then (c as int + 32) as char
    else if 'Ѐ' <= c <= 'Џ' then (c as int + 80) as char
    else c
  }

  /** `toLowerCase()` / `strings.ToLower`, code point by code point. */
  function Lower(s: string): (r: string)
    ensures |r| == |s|
    ensures forall i :: 0 <= i < |s| ==> r[i] == LowerChar(s[i])
  {
    seq(|s|, i requires 0 <= i < |s| => LowerChar(s[i]))
  }

  lemma LowerConcat(a: string, b: string)
    ensures Lower(a + b) == Lower(a) + Lower(b)
  {
    assert Lower(a + b) == Lower(a) + Lower(b);
  }

  /** The code points JavaScript's `trim()` removes: WhiteSpace and
      LineTerminator of ECMA-262 (section 12.2 and 12.3). */
  predicate IsWhitespace(c: char) {
    c == '\t' || c == '\n' || c == '\U{000B}' || c == '\U{000C}' || c == '\r' || c == ' '
    || c == '\U{00A0}' || c == '\U{1680}' || ('\U{2000}' <= c <= '\U{200A}')
    || c == '\U{2028}' || c == '\U{2029}' || c == '\U{202F}' || c == '\U{205F}'
    || c == '\U{3000}' || c == '\U{FEFF}'
  }

  function TrimStart(s: string): (r: string)
    decreases |s|
  {
    if |s| > 0 && IsWhitespace(s[0]) then TrimStart(s[1..]) else s
  }

  function TrimEnd(s: string): (r: string)
    decreases |s|
  {
    if |s| > 0 && IsWhitespace(s[|s| - 1]) then TrimEnd(s[..|s| - 1]) else s
  }

  /** `s.trim()`. */
  function Trim(s: string): string {
    TrimEnd(TrimStart(s))
  }

  /** A string that is empty after `trim()`: every code point is whitespace. */
  predicate IsBlank(s: string) {
    forall i :: 0 <= i < |s| ==> IsWhitespace(s[i])
  }

  lemma {:induction false} TrimStartEmptyIff(s: string)
    ensures TrimStart(s) == [] <==> IsBlank(s)
    decreases |s|
  {
    if |s| > 0 && IsWhitespace(s[0]) {
      TrimStartEmptyIff(s[1..]);
      assert IsBlank(s) <==> IsBlank(s[1..]) by {
        if IsBlank(s[1..]) {
          forall i | 0 <= i < |s| ensures IsWhitespace(s[i]) {
            if i > 0 { assert s[i] == s[1..][i - 1]; }
          }
        }
      }
    } else if |s| > 0 {
      assert !IsWhitespace(s[0]);
    }
  }

  lemma {:induction false} TrimEndOfNonBlank(s: string)
    requires |s| > 0 && !IsWhitespace(s[0])
    ensures TrimEnd(s) != []
    decreases |s|
  {
    if IsWhitespace(s[|s| - 1]) {
      assert |s| > 1;
      TrimEndOfNonBlank(s[..|s| - 1]);
    }
  }

  /** `!s.trim()` holds exactly for blank strings. */
  lemma TrimEmptyIff(s: string)
    ensures Trim(s) == [] <==> IsBlank(s)
  {
    TrimStartEmptyIff(s);
    var t := TrimStart(s);
    if t != [] {
      assert !IsWhitespace(t[0]) by { TrimStartHead(s); }
      TrimEndOfNonBlank(t);
    }
  }

  lemma {:induction false} TrimStartHead(s: string)
    requires TrimStart(s) != []
    ensures !IsWhitespace(TrimStart(s)[0])
    decreases |s|
  {
    if |s| > 0 && IsWhitespace(s[0]) {
      TrimStartHead(s[1..]);
    }
  }

  /** No value occurs twice. */
  predicate NoDuplicates<T(==)>(s: seq<T>) {
    forall i, j :: 0 <= i < j < |s| ==> s[i] != s[j]
  }

  /** `sub` is `s` with some elements dropped, the rest kept in order. */
  predicate IsSubsequence<T(==)>(sub: seq<T>, s: seq<T>)
    decreases |s|
  {
    if |sub| == 0 then true
    else if |s| == 0 then false
    else if sub[0] == s[0] then IsSubsequence(sub[1..], s[1..])
    else IsSubsequence(sub, s[1..])
  }

  lemma {:induction false} SubsequenceElements<T>(sub: seq<T>, s: seq<T>)
    requires IsSubsequence(sub, s)
    ensures forall x :: x in sub ==> x in s
    ensures |sub| <= |s|
    decreases |s|
  {
    if |sub| > 0 {
      if sub[0] == s[0] {
        SubsequenceElements(sub[1..], s[1..]);
        forall x | x in sub ensures x in s {
          if x != sub[0] { assert x in sub[1..]; }
        }
      } else {
        SubsequenceElements(sub, s[1..]);
      }
    }
  }

  /** `s.slice(0, n)` for a non-negative `n`. */
  function Take<T(==)>(s: seq<T>, n: nat): (r: seq<T>)
    ensures |r| == if n < |s| then n else |s|
    ensures IsPrefixSeq(r, s)
  {
    if n < |s| then s[..n] else s
  }

  predicate IsPrefixSeq<T(==)>(p: seq<T>, s: seq<T>) {
    |p| <= |s| && s[..|p|] == p
  }

  /** A subsequence of the tail is a subsequence of the whole. */
  lemma {:induction false} SubsequenceOfTail<T>(sub: seq<T>, s: seq<T>)
    requires |s| > 0 && IsSubsequence(sub, s[1..])
    ensures IsSubsequence(sub, s)
    decreases |s|, 0
  {
    if |sub| > 0 && sub[0] == s[0] {
      SubsequenceDropFirst(sub, s[1..]);
    }
  }

  /** Dropping the first element of a subsequence leaves a subsequence. */
  lemma {:induction false} SubsequenceDropFirst<T>(sub: seq<T>, t: seq<T>)
    requires |sub| > 0 && IsSubsequence(sub, t)
    ensures IsSubsequence(sub[1..], t)
    decreases |t|, 1
  {
    if sub[0] == t[0] {
      SubsequenceOfTail(sub[1..], t);
    } else {
      SubsequenceDropFirst(sub, t[1..]);
      SubsequenceOfTail(sub[1..], t);
    }
  }

  /** `s.filter(p)`: the elements satisfying `p`, in order. */
  function Filter<T(==, !new)>(s: seq<T>, p: T -> bool): (r: seq<T>)
    ensures forall x :: x in r <==> x in s && p(x)
    ensures IsSubsequence(r, s)
    ensures |r| <= |s|
    ensures NoDuplicates(s) ==> NoDuplicates(r)
  {
    if |s| == 0 then []
    else
      var rest := Filter(s[1..], p);
      if p(s[0]) then
        KeepHead(s, rest, p);
        [s[0]] + rest
      else
        SubsequenceOfTail(rest, s);
        rest
  }

  /** Filtering keeps a head that satisfies the predicate. */
  lemma KeepHead<T>(s: seq<T>, rest: seq<T>, p: T -> bool)
    requires |s| > 0 && p(s[0])
    requires forall x :: x in rest <==> x in s[1..] && p(x)
    requires IsSubsequence(rest, s[1..])
    requires NoDuplicates(s[1..]) ==> NoDuplicates(rest)
    ensures forall x :: x in [s[0]] + rest <==> x in s && p(x)
    ensures IsSubsequence([s[0]] + rest, s)
    ensures NoDuplicates(s) ==> NoDuplicates([s[0]] + rest)
  {
    var r := [s[0]] + rest;
    assert r[1..] == rest;
    assert s == [s[0]] + s[1..];
    if NoDuplicates(s) {
      assert s[0] !in s[1..];
      assert NoDuplicates(s[1..]) by {
        forall i, j | 0 <= i < j < |s[1..]| ensures s[1..][i] != s[1..][j] {
          assert s[1..][i] == s[i + 1] && s[1..][j] == s[j + 1];
        }
      }
      forall i, j | 0 <= i < j < |r| ensures r[i] != r[j] {
        assert r[j] == rest[j - 1] && r[j] in rest;
        if i > 0 {
          assert r[i] == rest[i - 1];
        }
      }
    }
  }

  /** Filtering by a predicate every element meets changes nothing. */
  lemma {:induction false} FilterAll<T(!new)>(s: seq<T>, p: T -> bool)
    requires forall i :: 0 <= i < |s| ==> p(s[i])
    ensures Filter(s, p) == s
    decreases |s|
  {
    if |s| > 0 {
      FilterAll(s[1..], p);
      assert s == [s[0]] + s[1..];
    }
  }

  lemma {:induction false} SubsequenceReflexive<T>(s: seq<T>)
    ensures IsSubsequence(s, s)
    decreases |s|
  {
    if |s| > 0 {
      SubsequenceReflexive(s[1..]);
    }
  }

  lemma {:induction false} SubsequenceTransitive<T>(a: seq<T>, b: seq<T>, c: seq<T>)
    requires IsSubsequence(a, b) && IsSubsequence(b, c)
    ensures IsSubsequence(a, c)
    decreases |c|
  {
    if |a| > 0 && |b| > 0 && |c| > 0 {
      if b[0] == c[0] {
        if a[0] == b[0] {
          SubsequenceTransitive(a[1..], b[1..], c[1..]);
        } else {
          SubsequenceTransitive(a, b[1..], c[1..]);
          SubsequenceOfTail(a, c);
        }
      } else {
        SubsequenceTransitive(a, b, c[1..]);
        SubsequenceOfTail(a, c);
      }
    }
  }

  /** The first position whose element satisfies `p`, if any
      (`findIndex`, or a `WHERE` on a unique column). */
  function FindFirst<T>(s: seq<T>, p: T -> bool): (r: Option<nat>)
    ensures r.Some? ==> r.value < |s| && p(s[r.value])
    ensures r.Some? ==> forall i :: 0 <= i < r.value ==> !p(s[i])
    ensures r.None? <==> forall i :: 0 <= i < |s| ==> !p(s[i])
  {
    if |s| == 0 then None
    else if p(s[0]) then Some(0)
    else match FindFirst(s[1..], p)
      case None => None
      case Some(i) => Some(i + 1)
  }

  /** Filtering a list with a given head. */
  lemma FilterCons<T(!new)>(x: T, s: seq<T>, p: T -> bool)
    ensures Filter([x] + s, p) == (if p(x) then [x] else []) + Filter(s, p)
  {
    assert ([x] + s)[1..] == s;
  }

  /** Filtering distributes over appending one element. */
  lemma {:induction false} FilterSnoc<T(!new)>(s: seq<T>, x: T, p: T -> bool)
    ensures Filter(s + [x], p) == Filter(s, p) + (if p(x) then [x] else [])
    decreases |s|
  {
    if |s| == 0 {
      assert [x][1..] == [];
    } else {
      assert (s + [x])[1..] == s[1..] + [x];
      FilterSnoc(s[1..], x, p);
    }
  }

  /** A value at two positions of a list counts at least twice in it. */
  lemma OccursTwice<T>(s: seq<T>, i: int, j: int)
    requires 0 <= i < j < |s| && s[i] == s[j]
    ensures multiset(s)[s[i]] >= 2
  {
    assert s == s[..i] + [s[i]] + s[i + 1..j] + [s[j]] + s[j + 1..];
  }

  /** In a list without duplicates every value counts at most once. */
  lemma {:induction false} CountedAtMostOnce<T>(s: seq<T>, x: T)
    requires NoDuplicates(s)
    ensures multiset(s)[x] <= 1
    decreases |s|
  {
    if |s| > 0 {
      assert s == [s[0]] + s[1..];
      CountedAtMostOnce(s[1..], x);
      if s[0] == x {
        assert x !in s[1..] by {
          forall k | 0 <= k < |s[1..]| ensures s[1..][k] != x {
            assert s[k + 1] != s[0];
          }
        }
      }
    }
  }

  /** A permutation of a list without duplicates has none either. */
  lemma PermutationKeepsNoDuplicates<T>(s: seq<T>, r: seq<T>)
    requires NoDuplicates(s) && multiset(r) == multiset(s)
    ensures NoDuplicates(r)
  {
    forall i, j | 0 <= i < j < |r| ensures r[i] != r[j] {
      CountedAtMostOnce(s, r[i]);
      if r[i] == r[j] {
        OccursTwice(r, i, j);
      }
    }
  }

  /** Filtering by a predicate no element meets leaves nothing. */
  lemma {:induction false} FilterNone<T(!new)>(s: seq<T>, p: T -> bool)
    requires forall i :: 0 <= i < |s| ==> !p(s[i])
    ensures Filter(s, p) == []
    decreases |s|
  {
    if |s| > 0 {
      FilterNone(s[1..], p);
    }
  }
}
