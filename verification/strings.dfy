/** The handful of JavaScript string operations the blog relies on:
    `endsWith`, the relational `<`, ASCII `toLowerCase` and `includes`. */
module Strings {

  /** `s.endsWith(suffix)`. */
  predicate EndsWith(s: string, suffix: string)
  {
    |suffix| <= |s| && s[|s| - |suffix|..] == suffix
  }

  /** `p` is a prefix of `s`. */
  predicate IsPrefix(p: string, s: string)
  {
    |p| <= |s| && s[..|p|] == p
  }

  // ---------------------------------------------------------------------------
  // String order

  /** `a < b` on strings, computed the way an engine walks the two strings:
      the first differing character decides, and a proper prefix is smaller. */
  predicate Less(a: string, b: string)
  {
    if |b| == 0 then false
    else if |a| == 0 then true
    else if a[0] != b[0] then a[0] < b[0]
    else Less(a[1..], b[1..])
  }

  /** Reference definition of the same order, as the ECMAScript
      IsLessThan operation states it for two strings: either `a` is a
      proper prefix of `b`, or at the first index where they differ the
      character of `a` is smaller. */
  ghost predicate LexLess(a: string, b: string)
  {
    || (|a| < |b| && b[..|a|] == a)
    || exists k :: FirstDifference(a, b, k) && a[k] < b[k]
  }

  /** `k` is the first index at which `a` and `b` differ. */
  ghost predicate FirstDifference(a: string, b: string, k: int)
  {
    0 <= k < |a| && k < |b| && a[..k] == b[..k] && a[k] != b[k]
  }

  lemma {:induction false} LessIsLexicographic(a: string, b: string)
    ensures Less(a, b) <==> LexLess(a, b)
    decreases |a|
  {
    if |b| == 0 {
      assert !LexLess(a, b);
    } else if |a| == 0 {
      assert b[..0] == a;
    } else if a[0] != b[0] {
      assert a[..0] == b[..0];
      assert FirstDifference(a, b, 0);
    } else {
      var a', b' := a[1..], b[1..];
      LessIsLexicographic(a', b');
      if LexLess(a', b') {
        if |a'| < |b'| && b'[..|a'|] == a' {
          assert b[..|a|] == [b[0]] + b'[..|a'|];
          assert a == [a[0]] + a';
        } else {
          var k :| FirstDifference(a', b', k) && a'[k] < b'[k];
          assert a[..k + 1] == [a[0]] + a'[..k];
          assert b[..k + 1] == [b[0]] + b'[..k];
          assert FirstDifference(a, b, k + 1) && a[k + 1] < b[k + 1];
        }
      }
      if LexLess(a, b) {
        if |a| < |b| && b[..|a|] == a {
          assert b'[..|a'|] == b[..|a|][1..];
        } else {
          var k :| FirstDifference(a, b, k) && a[k] < b[k];
          assert k != 0;
          assert a'[..k - 1] == a[..k][1..];
          assert b'[..k - 1] == b[..k][1..];
          assert FirstDifference(a', b', k - 1) && a'[k - 1] < b'[k - 1];
        }
      }
    }
  }

  lemma {:induction false} LessIrreflexive(a: string)
    ensures !Less(a, a)
    decreases |a|
  {
    if |a| > 0 {
      LessIrreflexive(a[1..]);
    }
  }

  lemma {:induction false} LessTransitive(a: string, b: string, c: string)
    requires Less(a, b) && Less(b, c)
    ensures Less(a, c)
    decreases |a|
  {
    if |a| > 0 && a[0] == b[0] && b[0] == c[0] {
      LessTransitive(a[1..], b[1..], c[1..]);
    }
  }

  /** Any two different strings are ordered one way or the other. */
  lemma {:induction false} LessConnected(a: string, b: string)
    requires a != b
    ensures Less(a, b) || Less(b, a)
    decreases |a|
  {
    if |a| > 0 && |b| > 0 && a[0] == b[0] {
      LessConnected(a[1..], b[1..]);
    }
  }

  lemma LessAsymmetric(a: string, b: string)
    requires Less(a, b)
    ensures !Less(b, a)
  {
    if Less(b, a) {
      LessTransitive(a, b, a);
      LessIrreflexive(a);
    }
  }

  /** "Not less than" is transitive: the order the date sort relies on. */
  lemma NotLessTransitive(a: string, b: string, c: string)
    requires !Less(a, b) && !Less(b, c)
    ensures !Less(a, c)
  {
    if Less(a, c) {
      if b == c {
      } else {
        LessConnected(b, c);
        LessTransitive(a, c, b);
      }
    }
  }

  /** `!Less` both ways pins the two strings down to the same string. */
  lemma NotLessAntisymmetric(a: string, b: string)
    requires !Less(a, b) && !Less(b, a)
    ensures a == b
  {
    if a != b {
      LessConnected(a, b);
    }
  }

  // ---------------------------------------------------------------------------
  // ASCII lower-casing

  predicate IsUpperAscii(c: char)
  {
    'A' <= c <= 'Z'
  }

  /** `toLowerCase` restricted to ASCII letters; every other character is kept. */
  function ToLowerAscii(c: char): (d: char)
    ensures !IsUpperAscii(d)
    ensures IsUpperAscii(c) ==> d as int == c as int + 32
    ensures !IsUpperAscii(c) ==> d == c
  {
    if IsUpperAscii(c) then (c as int + ('a' as int - 'A' as int)) as char else c
  }

  /** `s.toLowerCase()` over ASCII. */
  function Lower(s: string): (r: string)
    ensures |r| == |s|
    ensures forall i :: 0 <= i < |s| ==> r[i] == ToLowerAscii(s[i])
  {
    if |s| == 0 then [] else [ToLowerAscii(s[0])] + Lower(s[1..])
  }

  /** Lower-casing a lower-cased string changes nothing. */
  lemma {:induction false} LowerIdempotent(s: string)
    ensures Lower(Lower(s)) == Lower(s)
  {
    var l := Lower(s);
    var ll := Lower(l);
    assert forall i :: 0 <= i < |s| ==> ll[i] == l[i];
  }

  // ---------------------------------------------------------------------------
  // Substring search

  /** `hay.includes(needle)`, computed by trying each start position. */
  predicate Contains(hay: string, needle: string)
    decreases |hay|
  {
    IsPrefix(needle, hay) || (|hay| > 0 && Contains(hay[1..], needle))
  }

  /** `needle` occurs in `hay` starting at index `k`. */
  ghost predicate OccursAt(hay: string, needle: string, k: int)
  {
    0 <= k && k + |needle| <= |hay| && hay[k..k + |needle|] == needle
  }

  lemma {:induction false} ContainsIffOccurs(hay: string, needle: string)
    ensures Contains(hay, needle) <==> exists k :: OccursAt(hay, needle, k)
    decreases |hay|
  {
    if IsPrefix(needle, hay) {
      assert OccursAt(hay, needle, 0);
    } else if |hay| == 0 {
    } else {
      ContainsIffOccurs(hay[1..], needle);
      if Contains(hay[1..], needle) {
        var k :| OccursAt(hay[1..], needle, k);
        assert hay[k + 1..k + 1 + |needle|] == hay[1..][k..k + |needle|];
        assert OccursAt(hay, needle, k + 1);
      }
      if exists k :: OccursAt(hay, needle, k) {
        var k :| OccursAt(hay, needle, k);
        if k != 0 {
          assert hay[1..][k - 1..k - 1 + |needle|] == hay[k..k + |needle|];
          assert OccursAt(hay[1..], needle, k - 1);
        }
      }
    }
  }

  /** Every string contains the empty string. */
  lemma ContainsEmpty(hay: string)
    ensures Contains(hay, "")
  {
    assert IsPrefix("", hay);
  }
}
