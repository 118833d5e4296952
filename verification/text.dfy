/** The string operations the codec relies on: `lastIndexOf`, `startsWith`
    and case mapping. Case mapping is Java's `toLowerCase`/`toUpperCase`
    restricted to ASCII: it maps `A`-`Z` and `a`-`z` and leaves every other
    character alone. */
module Text {

  predicate IsUpper(c: char)
  {
    'A' <= c <= 'Z'
  }

  predicate IsLower(c: char)
  {
    'a' <= c <= 'z'
  }

  /** `Character.toLowerCase` on ASCII. */
  function LowerChar(c: char): (r: char)
    ensures !IsUpper(r)
    ensures IsUpper(c) <==> r != c
    ensures IsLower(r) <==> IsUpper(c) || IsLower(c)
  {
    if IsUpper(c) then (c as int + 32) as char else c
  }

  /** `Character.toUpperCase` on ASCII. */
  function UpperChar(c: char): (r: char)
    ensures !IsLower(r)
    ensures IsLower(c) <==> r != c
    ensures IsUpper(r) <==> IsUpper(c) || IsLower(c)
  {
    if IsLower(c) then (c as int - 32) as char else c
  }

  /** `String.toLowerCase`: every character lowered, one for one. */
  function ToLower(s: string): (r: string)
    ensures |r| == |s|
    ensures forall i :: 0 <= i < |s| ==> r[i] == LowerChar(s[i])
  {
    if s == [] then [] else [LowerChar(s[0])] + ToLower(s[1..])
  }

  /** `String.toUpperCase`: every character raised, one for one. */
  function ToUpper(s: string): (r: string)
    ensures |r| == |s|
    ensures forall i :: 0 <= i < |s| ==> r[i] == UpperChar(s[i])
  {
    if s == [] then [] else [UpperChar(s[0])] + ToUpper(s[1..])
  }

  /** `s.lastIndexOf(c)`: the position of the last `c` in `s`, or -1. */
  function LastIndexOf(s: string, c: char): (r: int)
    ensures -1 <= r < |s|
    ensures r == -1 <==> c !in s
    ensures r >= 0 ==> s[r] == c && forall j :: r < j < |s| ==> s[j] != c
  {
    if s == [] then -1
    else if s[|s| - 1] == c then |s| - 1
    else
      var r := LastIndexOf(s[..|s| - 1], c);
      assert s == s[..|s| - 1] + [s[|s| - 1]];
      r
  }

  /** `s.startsWith(p)`. */
  predicate StartsWith(s: string, p: string)
  {
    |p| <= |s| && s[..|p|] == p
  }

  /** Starting with `p` and a separator is having `p` in front and the
      separator right after it. */
  lemma StartsWithSeparator(s: string, p: string)
    ensures StartsWith(s, p + "1") <==> |p| < |s| && s[..|p|] == p && s[|p|] == '1'
  {
    if |p| < |s| {
      assert s[..|p| + 1] == s[..|p|] + [s[|p|]];
      assert s[..|p|] == s[..|p| + 1][..|p|];
    }
  }

  /** A string is its own lower case exactly when it has no upper-case
      letter. */
  lemma LowerFixed(s: string)
    ensures ToLower(s) == s <==> forall i :: 0 <= i < |s| ==> !IsUpper(s[i])
  {
    if ToLower(s) == s {
      forall i | 0 <= i < |s|
        ensures !IsUpper(s[i])
      {
        assert ToLower(s)[i] == s[i];
      }
    }
  }

  /** A string is its own upper case exactly when it has no lower-case
      letter. */
  lemma UpperFixed(s: string)
    ensures ToUpper(s) == s <==> forall i :: 0 <= i < |s| ==> !IsLower(s[i])
  {
    if ToUpper(s) == s {
      forall i | 0 <= i < |s|
        ensures !IsLower(s[i])
      {
        assert ToUpper(s)[i] == s[i];
      }
    }
  }

  /** Lowering is idempotent, and lowering forgets any earlier raising. */
  lemma LowerUpper(s: string)
    ensures ToLower(ToLower(s)) == ToLower(s)
    ensures ToLower(ToUpper(s)) == ToLower(s)
    ensures ToUpper(ToUpper(s)) == ToUpper(s)
  {
  }

  /** Case mapping leaves the separator where it was. */
  lemma LastIndexOfCase(s: string)
    ensures LastIndexOf(ToLower(s), '1') == LastIndexOf(s, '1')
    ensures LastIndexOf(ToUpper(s), '1') == LastIndexOf(s, '1')
  {
    SameSeparators(s, ToLower(s));
    SameSeparators(s, ToUpper(s));
  }

  /** Two strings of one length with the separator at the same positions
      have their last separator at the same place. */
  lemma SameSeparators(s: string, t: string)
    requires |s| == |t|
    requires forall i :: 0 <= i < |s| ==> (s[i] == '1' <==> t[i] == '1')
    ensures LastIndexOf(t, '1') == LastIndexOf(s, '1')
  {
    var r, l := LastIndexOf(s, '1'), LastIndexOf(t, '1');
    if r >= 0 {
      assert t[r] == '1';
    }
    if l >= 0 {
      assert s[l] == '1';
    }
  }

  /** Lowering neither adds nor removes a separator. */
  lemma LowerSeparator(s: string)
    ensures '1' in ToLower(s) <==> '1' in s
  {
    if '1' in ToLower(s) {
      var i :| 0 <= i < |s| && ToLower(s)[i] == '1';
      assert s[i] == '1';
    }
    if '1' in s {
      var i :| 0 <= i < |s| && s[i] == '1';
      assert ToLower(s)[i] == '1';
    }
  }
}
