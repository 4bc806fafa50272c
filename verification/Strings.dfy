/**
 * The JavaScript string operations the core relies on: `trim`, `toLowerCase`,
 * `includes`, decimal formatting of a counter, and the `/\s+/g` and
 * `/[^a-z0-9_]/g` rewrites that build a product slug.
 */
module Strings {
  import opened Base

  /** The characters matched by `\s` and removed by `String.prototype.trim`:
      ECMAScript WhiteSpace and LineTerminator code points. */
  predicate IsWhitespace(c: char) {
    || c == '\t' || c == '\n' || c == '\U{000B}' || c == '\U{000C}' || c == '\r'
    || c == ' ' || c == '\U{00A0}' || c == '\U{1680}'
    || ('\U{2000}' <= c <= '\U{200A}')
    || c == '\U{2028}' || c == '\U{2029}' || c == '\U{202F}' || c == '\U{205F}'
    || c == '\U{3000}' || c == '\U{FEFF}'
  }

  predicate AllWhitespace(s: string) {
    forall i :: 0 <= i < |s| ==> IsWhitespace(s[i])
  }

  function TrimStart(s: string): (r: string)
    ensures |r| <= |s| && r == s[|s| - |r|..]
    ensures AllWhitespace(s[..|s| - |r|])
    ensures |r| > 0 ==> !IsWhitespace(r[0])
  {
    if |s| > 0 && IsWhitespace(s[0]) then TrimStart(s[1..]) else s
  }

  function TrimEnd(s: string): (r: string)
    ensures |r| <= |s| && r == s[..|r|]
    ensures AllWhitespace(s[|r|..])
    ensures |r| > 0 ==> !IsWhitespace(r[|r| - 1])
  {
    if |s| > 0 && IsWhitespace(s[|s| - 1]) then TrimEnd(s[..|s| - 1]) else s
  }

  /** The number of white-space characters `trim` removes from the front. */
  function LeadingWhitespace(s: string): (n: nat)
    ensures n <= |s|
  {
    |s| - |TrimStart(s)|
  }

  /** `s.trim()`: the slice of `s` left after removing leading and trailing
      white space; everything removed is white space and the result neither
      starts nor ends with white space. */
  function Trim(s: string): (r: string)
    ensures LeadingWhitespace(s) + |r| <= |s|
    ensures r == s[LeadingWhitespace(s)..LeadingWhitespace(s) + |r|]
    ensures AllWhitespace(s[..LeadingWhitespace(s)])
    ensures AllWhitespace(s[LeadingWhitespace(s) + |r|..])
    ensures |r| > 0 ==> !IsWhitespace(r[0]) && !IsWhitespace(r[|r| - 1])
  {
    var a := TrimStart(s);
    var r := TrimEnd(a);
    TrimmedSlice(s, a, r);
    r
  }

  /** A prefix `r` of a suffix `a` of `s` is a slice of `s`, and white
      space after `r` in `a` is white space after it in `s`. */
  lemma TrimmedSlice(s: string, a: string, r: string)
    requires |a| <= |s| && a == s[|s| - |a|..]
    requires |r| <= |a| && r == a[..|r|] && AllWhitespace(a[|r|..])
    ensures r == s[|s| - |a|..|s| - |a| + |r|]
    ensures AllWhitespace(s[|s| - |a| + |r|..])
  {
    var k := |s| - |a|;
    SliceOfSuffix(s, k, |r|);
  }

  lemma SliceOfSuffix(s: string, k: nat, n: nat)
    requires k + n <= |s|
    ensures s[k..][..n] == s[k..k + n]
    ensures s[k..][n..] == s[k + n..]
  {
  }

  /** `s.trim().length === 0` holds exactly for strings made only of white space. */
  lemma {:induction false} TrimEmptyIffAllWhitespace(s: string)
    ensures |Trim(s)| == 0 <==> AllWhitespace(s)
  {
    var a := TrimStart(s);
    if |a| == 0 {
      assert s[..|s| - |a|] == s;
    } else {
      assert !IsWhitespace(s[|s| - |a|]);
    }
  }

  /** Trimming twice is trimming once. */
  lemma TrimIdempotent(s: string)
    ensures Trim(Trim(s)) == Trim(s)
  {
    var t := Trim(s);
    if |t| > 0 {
      assert TrimStart(t) == t;
      assert TrimEnd(t) == t;
    }
  }

  /** ASCII case mapping of `toLowerCase`. */
  function LowerChar(c: char): (r: char)
    ensures 'A' <= c <= 'Z' ==> 'a' <= r <= 'z'
    ensures !('A' <= c <= 'Z') ==> r == c
  {
    if 'A' <= c <= 'Z' then (c as int - 'A' as int + 'a' as int) as char else c
  }

  /** `s.toLowerCase()`, restricted to the ASCII letters. */
  function Lower(s: string): (r: string)
    ensures |r| == |s|
    ensures forall i :: 0 <= i < |s| ==> r[i] == LowerChar(s[i])
  {
    if |s| == 0 then [] else [LowerChar(s[0])] + Lower(s[1..])
  }

  predicate IsPrefix(p: string, s: string) {
    |p| <= |s| && s[..|p|] == p
  }

  /** `sub` occurs in `s` starting at position `i`. */
  predicate OccursAt(s: string, sub: string, i: int) {
    0 <= i && i + |sub| <= |s| && s[i..i + |sub|] == sub
  }

  /** `s.includes(sub)`: some suffix of `s` starts with `sub`. */
  predicate Contains(s: string, sub: string)
    decreases |s|
  {
    IsPrefix(sub, s) || (|s| > 0 && Contains(s[1..], sub))
  }

  /** `Contains` agrees with the position-based reading of `includes`. */
  lemma {:induction false} ContainsAt(s: string, sub: string)
    ensures Contains(s, sub) <==> exists i :: OccursAt(s, sub, i)
    decreases |s|
  {
    if IsPrefix(sub, s) {
      assert OccursAt(s, sub, 0);
    } else if |s| > 0 {
      ContainsAt(s[1..], sub);
      if Contains(s[1..], sub) {
        var i :| OccursAt(s[1..], sub, i);
        assert s[i + 1..i + 1 + |sub|] == s[1..][i..i + |sub|];
        assert OccursAt(s, sub, i + 1);
      }
      if exists i :: OccursAt(s, sub, i) {
        var i :| OccursAt(s, sub, i);
        assert i != 0;
        assert s[1..][i - 1..i - 1 + |sub|] == s[i..i + |sub|];
        assert OccursAt(s[1..], sub, i - 1);
      }
    } else {
      assert forall i :: !OccursAt(s, sub, i);
    }
  }

  /** A string containing `sub` contains every piece of `sub`. */
  lemma ContainsSub(s: string, sub: string, piece: string)
    requires Contains(s, sub)
    requires Contains(sub, piece)
    ensures Contains(s, piece)
  {
    ContainsAt(s, sub);
    ContainsAt(sub, piece);
    ContainsAt(s, piece);
    var i :| OccursAt(s, sub, i);
    var j :| OccursAt(sub, piece, j);
    forall k | 0 <= k < |piece|
      ensures s[i + j..i + j + |piece|][k] == piece[k]
    {
      assert s[i..i + |sub|][j + k] == sub[j + k];
      assert sub[j..j + |piece|][k] == piece[k];
    }
    assert OccursAt(s, piece, i + j);
  }

  /** `keywords.some((keyword) => name.includes(keyword))`. */
  predicate ContainsAny(name: string, keywords: seq<string>) {
    |keywords| > 0 && (Contains(name, keywords[0]) || ContainsAny(name, keywords[1..]))
  }

  /** Some keyword of the list occurs in the name. */
  lemma {:induction false} ContainsAnyIndex(name: string, keywords: seq<string>)
    ensures ContainsAny(name, keywords) <==> exists i :: 0 <= i < |keywords| && Contains(name, keywords[i])
  {
    if |keywords| > 0 {
      var tail := keywords[1..];
      ContainsAnyIndex(name, tail);
      if exists i :: 0 <= i < |keywords| && Contains(name, keywords[i]) {
        var i :| 0 <= i < |keywords| && Contains(name, keywords[i]);
        if i > 0 {
          assert tail[i - 1] == keywords[i];
        }
      }
      if exists i :: 0 <= i < |tail| && Contains(name, tail[i]) {
        var i :| 0 <= i < |tail| && Contains(name, tail[i]);
        assert keywords[i + 1] == tail[i];
      }
    }
  }

  // ---------------------------------------------------------------- decimal

  predicate IsDigit(c: char) {
    '0' <= c <= '9'
  }

  function DigitChar(d: nat): (c: char)
    requires d < 10
    ensures IsDigit(c)
  {
    ('0' as int + d) as char
  }

  /** Template-literal formatting of a non-negative integer counter. */
  function NatToString(n: nat): (r: string)
    ensures |r| > 0
    ensures forall i :: 0 <= i < |r| ==> IsDigit(r[i])
  {
    if n < 10 then [DigitChar(n)] else NatToString(n / 10) + [DigitChar(n % 10)]
  }

  function DigitValue(c: char): (d: nat)
    requires IsDigit(c)
    ensures d < 10
  {
    c as int - '0' as int
  }

  /** Reads a string of decimal digits back as a number. */
  function ParseDigits(s: string): nat
    requires forall i :: 0 <= i < |s| ==> IsDigit(s[i])
  {
    if |s| == 0 then 0 else ParseDigits(s[..|s| - 1]) * 10 + DigitValue(s[|s| - 1])
  }

  /** Decimal formatting is inverted by digit parsing. */
  lemma {:induction false} NatToStringRoundTrip(n: nat)
    ensures ParseDigits(NatToString(n)) == n
  {
    if n >= 10 {
      var s := NatToString(n);
      assert s[..|s| - 1] == NatToString(n / 10);
      NatToStringRoundTrip(n / 10);
    }
  }

  /** Distinct counters format to distinct strings. */
  lemma NatToStringInjective(m: nat, n: nat)
    requires NatToString(m) == NatToString(n)
    ensures m == n
  {
    NatToStringRoundTrip(m);
    NatToStringRoundTrip(n);
  }

  // ------------------------------------------------------------------- slug

  /** The characters kept by `.replace(/[^a-z0-9_]/g, "")`. */
  predicate IsSlugChar(c: char) {
    ('a' <= c <= 'z') || IsDigit(c) || c == '_'
  }

  predicate IsSlug(s: string) {
    forall i :: 0 <= i < |s| ==> IsSlugChar(s[i])
  }

  predicate NoWhitespace(s: string) {
    forall i :: 0 <= i < |s| ==> !IsWhitespace(s[i])
  }

  /** `.replace(/\s+/g, "_")`: every maximal run of white space becomes one
      `_`; a string without white space is left alone, and a non-empty run
      on its own becomes a single `_`. How the pieces of a string combine is
      `CollapseConcat` and `CollapseRun`. */
  function CollapseWhitespace(s: string): (r: string)
    ensures |r| <= |s|
    ensures NoWhitespace(r)
    ensures NoWhitespace(s) ==> r == s
    ensures |s| > 0 && AllWhitespace(s) ==> r == "_"
  {
    if |s| == 0 then []
    else if IsWhitespace(s[0]) then "_" + CollapseWhitespace(TrimStart(s))
    else [s[0]] + CollapseWhitespace(s[1..])
  }

  /** Dropping leading white space from a concatenation: it stops inside `a`
      unless `a` is all white space. */
  lemma {:induction false} TrimStartConcat(a: string, b: string)
    ensures !AllWhitespace(a) ==> TrimStart(a + b) == TrimStart(a) + b
    ensures AllWhitespace(a) ==> TrimStart(a + b) == TrimStart(b)
  {
    if |a| == 0 {
      assert a + b == b;
    } else {
      assert (a + b)[0] == a[0];
      assert (a + b)[1..] == a[1..] + b;
      if IsWhitespace(a[0]) {
        TrimStartConcat(a[1..], b);
        if !AllWhitespace(a) {
          assert !AllWhitespace(a[1..]) by {
            var i :| 0 <= i < |a| && !IsWhitespace(a[i]);
            assert a[1..][i - 1] == a[i];
          }
        } else {
          assert AllWhitespace(a[1..]) by {
            forall i | 0 <= i < |a[1..]| ensures IsWhitespace(a[1..][i]) {
              assert a[1..][i] == a[i + 1];
            }
          }
        }
      }
    }
  }

  /** The rewrite works piece by piece: collapsing a concatenation collapses
      each side, unless a white-space run straddles the seam. */
  lemma {:induction false} CollapseConcat(a: string, b: string)
    requires !(|a| > 0 && |b| > 0 && IsWhitespace(a[|a| - 1]) && IsWhitespace(b[0]))
    ensures CollapseWhitespace(a + b) == CollapseWhitespace(a) + CollapseWhitespace(b)
    decreases |a|
  {
    if |a| == 0 {
      assert a + b == b;
    } else if !IsWhitespace(a[0]) {
      CollapseConcatStep(a, b);
    } else {
      CollapseConcatRun(a, b);
    }
  }

  /** `CollapseConcat` when `a` starts with a kept character. */
  lemma {:induction false} CollapseConcatStep(a: string, b: string)
    requires |a| > 0 && !IsWhitespace(a[0])
    requires !(|b| > 0 && IsWhitespace(a[|a| - 1]) && IsWhitespace(b[0]))
    ensures CollapseWhitespace(a + b) == CollapseWhitespace(a) + CollapseWhitespace(b)
    decreases |a|, 0
  {
    var ab := a + b;
    var rest := a[1..];
    assert ab[0] == a[0] && ab[1..] == rest + b;
    assert CollapseWhitespace(ab) == [a[0]] + CollapseWhitespace(rest + b);
    assert CollapseWhitespace(a) == [a[0]] + CollapseWhitespace(rest);
    if |rest| == 0 {
      assert rest + b == b;
      assert CollapseWhitespace(rest) == [];
      ConcatEmpty(CollapseWhitespace(b));
    } else {
      assert rest[|rest| - 1] == a[|a| - 1];
      CollapseConcat(rest, b);
    }
    assert CollapseWhitespace(rest + b) == CollapseWhitespace(rest) + CollapseWhitespace(b);
    ConcatAssoc([a[0]], CollapseWhitespace(rest), CollapseWhitespace(b));
  }

  /** `CollapseConcat` when `a` starts with white space: the leading run
      becomes `_`, and the rest of `a` is handled on its own. */
  lemma {:induction false} CollapseConcatRun(a: string, b: string)
    requires |a| > 0 && IsWhitespace(a[0])
    requires !(|b| > 0 && IsWhitespace(a[|a| - 1]) && IsWhitespace(b[0]))
    ensures CollapseWhitespace(a + b) == CollapseWhitespace(a) + CollapseWhitespace(b)
    decreases |a|, 0
  {
    var ab := a + b;
    assert ab[0] == a[0];
    var t := TrimStart(a);
    assert CollapseWhitespace(ab) == "_" + CollapseWhitespace(TrimStart(ab));
    assert CollapseWhitespace(a) == "_" + CollapseWhitespace(t);
    TrimStartConcat(a, b);
    if AllWhitespace(a) {
      assert TrimStart(a) == [] && TrimStart(b[..0]) == [];
      assert TrimStart(b) == b by {
        if |b| > 0 { assert !IsWhitespace(b[0]); }
      }
      assert t == [];
    } else {
      assert |TrimStart(a)| < |a|;
      assert t[|t| - 1] == a[|a| - 1];
      CollapseConcat(t, b);
      ConcatAssoc("_", CollapseWhitespace(t), CollapseWhitespace(b));
    }
  }

  /** Each maximal white-space run becomes exactly one `_`, and what stands
      on either side of it is rewritten on its own. */
  lemma CollapseRun(pre: string, w: string, post: string)
    requires |w| > 0 && AllWhitespace(w)
    requires |pre| == 0 || !IsWhitespace(pre[|pre| - 1])
    requires |post| == 0 || !IsWhitespace(post[0])
    ensures CollapseWhitespace(pre + w + post) == CollapseWhitespace(pre) + "_" + CollapseWhitespace(post)
  {
    var wp := w + post;
    CollapseConcat(w, post);
    assert CollapseWhitespace(wp) == "_" + CollapseWhitespace(post);
    assert wp[0] == w[0];
    CollapseConcat(pre, wp);
    ConcatAssoc(pre, w, post);
    ConcatAssoc(CollapseWhitespace(pre), "_", CollapseWhitespace(post));
  }

  /** `.replace(/[^a-z0-9_]/g, "")`: every slug character of `s` is kept, as
      often as it occurs, and nothing else; `KeepSlugConcat` adds that the
      order is kept. */
  function KeepSlugChars(s: string): (r: string)
    ensures IsSlug(r)
    ensures |r| <= |s|
    ensures forall c :: multiset(r)[c] == if IsSlugChar(c) then multiset(s)[c] else 0
  {
    if |s| == 0 then []
    else
      assert s == [s[0]] + s[1..];
      if IsSlugChar(s[0]) then [s[0]] + KeepSlugChars(s[1..])
      else KeepSlugChars(s[1..])
  }

  /** Filtering a concatenation filters each side and keeps them in order;
      with the single-character case this pins the result down as the
      subsequence of slug characters. */
  lemma {:induction false} KeepSlugConcat(a: string, b: string)
    ensures KeepSlugChars(a + b) == KeepSlugChars(a) + KeepSlugChars(b)
    decreases |a|
  {
    if |a| == 0 {
      assert a + b == b;
    } else {
      var ab := a + b;
      assert ab[0] == a[0];
      assert ab[1..] == a[1..] + b;
      KeepSlugConcat(a[1..], b);
      var tail := KeepSlugChars(a[1..]);
      if IsSlugChar(a[0]) {
        assert KeepSlugChars(ab) == [a[0]] + (tail + KeepSlugChars(b));
        assert KeepSlugChars(a) == [a[0]] + tail;
        ConcatAssoc([a[0]], tail, KeepSlugChars(b));
      } else {
        assert KeepSlugChars(ab) == tail + KeepSlugChars(b);
        assert KeepSlugChars(a) == tail;
      }
    }
  }

  /** A single character is kept exactly when it is a slug character. */
  lemma KeepSlugSingle(c: char)
    ensures KeepSlugChars([c]) == if IsSlugChar(c) then [c] else []
  {
    assert [c][1..] == [];
  }

  /** The product id derived from a mesh name. */
  function Slug(name: string): string {
    KeepSlugChars(CollapseWhitespace(Lower(name)))
  }

  /** A product id holds only lower-case ASCII letters, digits and `_`. */
  lemma SlugCharset(name: string)
    ensures IsSlug(Slug(name))
  {
  }

  /** A string already made of slug characters is its own slug. */
  lemma {:induction false} SlugFixesSlugs(s: string)
    requires IsSlug(s)
    ensures Slug(s) == s
  {
    LowerFixesSlugs(s);
    CollapseFixesSlugs(s);
    KeepFixesSlugs(s);
  }

  lemma {:induction false} LowerFixesSlugs(s: string)
    requires IsSlug(s)
    ensures Lower(s) == s
  {
  }

  lemma {:induction false} CollapseFixesSlugs(s: string)
    requires IsSlug(s)
    ensures CollapseWhitespace(s) == s
  {
    if |s| > 0 {
      assert !IsWhitespace(s[0]);
      CollapseFixesSlugs(s[1..]);
    }
  }

  lemma {:induction false} KeepFixesSlugs(s: string)
    requires IsSlug(s)
    ensures KeepSlugChars(s) == s
  {
    if |s| > 0 {
      KeepFixesSlugs(s[1..]);
    }
  }

  /** Deriving a product id from a product id changes nothing. */
  lemma SlugIdempotent(name: string)
    ensures Slug(Slug(name)) == Slug(name)
  {
    SlugFixesSlugs(Slug(name));
  }
}
