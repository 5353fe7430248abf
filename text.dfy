/**
 * The two string operations the catalogue relies on: Python's `str.lower()`
 * (restricted to the Latin and Cyrillic capitals that headers and product
 * names use) and the substring test `needle in haystack`.
 */
module Text {

  /** A capital letter of the modelled ranges: A-Z and U+0400..U+042F. */
  predicate IsCapital(c: char)
  {
    'A' <= c <= 'Z' || '\U{0400}' <= c <= '\U{042F}'
  }

  /** Lower-cases one character the way Python's `str.lower` does for Basic
      Latin A-Z, the Cyrillic capitals U+0410..U+042F and U+0400..U+040F;
      every other character is left as it is. */
  function LowerChar(c: char): (d: char)
    ensures !IsCapital(d)
    ensures !IsCapital(c) ==> d == c
  {
    if 'A' <= c <= 'Z' then (c as int + 32) as char
    else if '\U{0410}' <= c <= '\U{042F}' then (c as int + 32) as char
    else if '\U{0400}' <= c <= '\U{040F}' then (c as int + 80) as char
    else c
  }

  /** `s.lower()`, character by character: no capital is left, and every
      other character stays where it was. */
  function Lower(s: string): (r: string)
    ensures |r| == |s|
    ensures forall i :: 0 <= i < |r| ==> !IsCapital(r[i])
    ensures forall i :: 0 <= i < |s| && !IsCapital(s[i]) ==> r[i] == s[i]
  {
    seq(|s|, i requires 0 <= i < |s| => LowerChar(s[i]))
  }

  /** Lowering twice is lowering once. */
  lemma LowerIdempotent(s: string)
    ensures Lower(Lower(s)) == Lower(s)
  {
    var once := Lower(s);
    assert forall i :: 0 <= i < |once| ==> Lower(once)[i] == once[i];
  }

  /** `s.startswith(p)` */
  predicate StartsWith(s: string, p: string)
  {
    |p| <= |s| && s[..|p|] == p
  }

  /** `s.endswith(p)` */
  predicate EndsWith(s: string, p: string)
  {
    |p| <= |s| && s[|s| - |p|..] == p
  }

  /** s ends with p exactly when s is some string followed by p. */
  lemma EndsWithIffConcat(s: string, p: string)
    ensures EndsWith(s, p) <==> exists t :: s == t + p
  {
    if EndsWith(s, p) {
      assert s == s[..|s| - |p|] + p;
    }
    if exists t :: s == t + p {
      var t :| s == t + p;
      assert s[|s| - |p|..] == p;
    }
  }

  /** `needle in s`: the needle starts at some position of s. */
  predicate Contains(s: string, needle: string)
    ensures Contains(s, needle) ==> |needle| <= |s|
    decreases |s|
  {
    StartsWith(s, needle) || (s != [] && Contains(s[1..], needle))
  }

  /** The needle occupies s[i..i + |needle|]. */
  predicate OccursAt(s: string, needle: string, i: int)
  {
    0 <= i && i + |needle| <= |s| && s[i..i + |needle|] == needle
  }

  /** Contains agrees with the positional definition of a substring. */
  lemma {:induction false} ContainsIffOccurs(s: string, needle: string)
    ensures Contains(s, needle) <==> exists i :: OccursAt(s, needle, i)
    decreases |s|
  {
    if StartsWith(s, needle) {
      assert OccursAt(s, needle, 0);
    } else if s == [] {
      assert forall i :: !OccursAt(s, needle, i);
    } else {
      ContainsIffOccurs(s[1..], needle);
      if Contains(s[1..], needle) {
        var i :| OccursAt(s[1..], needle, i);
        assert s[i + 1..i + 1 + |needle|] == s[1..][i..i + |needle|];
        assert OccursAt(s, needle, i + 1);
      } else {
        forall i | OccursAt(s, needle, i)
          ensures false
        {
          assert i != 0;
          assert s[1..][i - 1..i - 1 + |needle|] == s[i..i + |needle|];
          assert OccursAt(s[1..], needle, i - 1);
        }
      }
    }
  }

  /** The empty needle occurs in every string (`"" in s` is true). */
  lemma EmptyNeedle(s: string)
    ensures Contains(s, "")
  {
    assert StartsWith(s, "");
  }
}
