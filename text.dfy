/** Text operations the deck editor borrows from Python's str type:
    lower-casing (str.lower), ordering (the < of str, which compares code
    points lexicographically) and the substring test (`in` on two str). */
module Text {

  /** One character of str.lower(), restricted to the alphabets the deck uses:
      Latin A-Z, Cyrillic А-Я and the Cyrillic capitals U+0400..U+040F (Ѐ..Џ, Ё
      among them). Every other character is left as it is. */
  function LowerChar(c: char): (r: char)
    ensures r == c || ('A' <= c <= 'Z' && r as int == c as int + 32)
                   || ('\U{0400}' <= c <= '\U{042F}' && r as int > c as int)
  {
    if 'A' <= c <= 'Z' then (c as int + 32) as char
    else if '\U{0410}' <= c <= '\U{042F}' then (c as int + 0x20) as char
    else if '\U{0400}' <= c <= '\U{040F}' then (c as int + 0x50) as char
    else c
  }

  /** str.lower(): the character fold applied position by position. */
  function Lower(s: string): string
  {
    if s == [] then [] else [LowerChar(s[0])] + Lower(s[1..])
  }

  lemma {:induction false} LowerAt(s: string)
    ensures |Lower(s)| == |s|
    ensures forall i :: 0 <= i < |s| ==> Lower(s)[i] == LowerChar(s[i])
  {
    if s != [] {
      LowerAt(s[1..]);
      forall i | 0 < i < |s| ensures Lower(s)[i] == LowerChar(s[i]) {
        assert Lower(s)[i] == Lower(s[1..])[i - 1];
      }
    }
  }

  /** Folding a character twice is folding it once: every folded character
      lies outside the ranges the fold changes. */
  lemma LowerCharIdempotent(c: char)
    ensures LowerChar(LowerChar(c)) == LowerChar(c)
  {
  }

  lemma {:induction false} LowerIdempotent(s: string)
    ensures Lower(Lower(s)) == Lower(s)
  {
    if s != [] {
      LowerIdempotent(s[1..]);
      LowerCharIdempotent(s[0]);
      assert Lower(s)[1..] == Lower(s[1..]);
    }
  }

  /** Python's `a <= b` on str: lexicographic order on code points, where a
      proper prefix comes first. */
  predicate StrLe(a: string, b: string)
  {
    |a| == 0 || (|b| > 0 && (a[0] < b[0] || (a[0] == b[0] && StrLe(a[1..], b[1..]))))
  }

  lemma {:induction false} StrLeReflexive(a: string)
    ensures StrLe(a, a)
  {
    if |a| > 0 { StrLeReflexive(a[1..]); }
  }

  lemma {:induction false} StrLeTotal(a: string, b: string)
    ensures StrLe(a, b) || StrLe(b, a)
  {
    if |a| > 0 && |b| > 0 && a[0] == b[0] { StrLeTotal(a[1..], b[1..]); }
  }

  lemma {:induction false} StrLeTransitive(a: string, b: string, c: string)
    requires StrLe(a, b) && StrLe(b, c)
    ensures StrLe(a, c)
  {
    if |a| > 0 && a[0] == b[0] && b[0] == c[0] {
      StrLeTransitive(a[1..], b[1..], c[1..]);
    }
  }

  lemma {:induction false} StrLeAntisymmetric(a: string, b: string)
    requires StrLe(a, b) && StrLe(b, a)
    ensures a == b
  {
    if |a| > 0 {
      StrLeAntisymmetric(a[1..], b[1..]);
      assert a == [a[0]] + a[1..] && b == [b[0]] + b[1..];
    }
  }

  /** Python's `p in s` on two str: p occurs in s at some position. */
  predicate IsInfix(p: string, s: string)
    decreases |s|
  {
    p <= s || (|s| > 0 && IsInfix(p, s[1..]))
  }

  /** The reference meaning of the substring test: a position k at which p
      appears in s. */
  ghost predicate OccursAt(p: string, s: string, k: int)
  {
    0 <= k && k + |p| <= |s| && s[k..k + |p|] == p
  }

  /** p occurs in s at some position. */
  ghost predicate Occurs(p: string, s: string)
  {
    exists k :: OccursAt(p, s, k)
  }

  lemma {:induction false} IsInfixIff(p: string, s: string)
    ensures IsInfix(p, s) <==> exists k :: OccursAt(p, s, k)
  {
    if p <= s {
      assert OccursAt(p, s, 0);
    } else if |s| > 0 {
      IsInfixIff(p, s[1..]);
      if IsInfix(p, s[1..]) {
        var k :| OccursAt(p, s[1..], k);
        assert s[1..][k..k + |p|] == s[k + 1..k + 1 + |p|];
        assert OccursAt(p, s, k + 1);
      }
      forall k | OccursAt(p, s, k) && k > 0 ensures IsInfix(p, s[1..]) {
        assert s[1..][k - 1..k - 1 + |p|] == s[k..k + |p|];
        assert OccursAt(p, s[1..], k - 1);
      }
    }
  }
}
