/** String operations the tool relies on, with the meaning Python gives them:
    `str.lower` (on ASCII letters), `str.endswith`, `str.join`, `''.join`
    (as `writelines` concatenates), `str.replace(pat, '')`, `str.split` and
    the code-point order Python uses to compare and sort strings. */
module Strings {

  /** Lower-cases an ASCII capital letter; every other character is unchanged. */
  function LowerChar(c: char): (r: char)
    ensures 'A' <= c <= 'Z' ==> 'a' <= r <= 'z' && r as int - c as int == 32
    ensures !('A' <= c <= 'Z') ==> r == c
  {
    if 'A' <= c <= 'Z' then (c as int + 32) as char else c
  }

  /** `s.lower()` on ASCII letters. */
  function ToLower(s: string): (r: string)
    ensures |r| == |s|
    ensures forall i :: 0 <= i < |s| ==> r[i] == LowerChar(s[i])
  {
    if s == [] then [] else [LowerChar(s[0])] + ToLower(s[1..])
  }

  /** Lower-casing twice is lower-casing once. */
  lemma ToLowerIdempotent(s: string)
    ensures ToLower(ToLower(s)) == ToLower(s)
  {
    assert forall i :: 0 <= i < |s| ==> LowerChar(LowerChar(s[i])) == LowerChar(s[i]);
  }

  /** A string without capital letters is its own lower case. */
  lemma ToLowerNoUpper(s: string)
    requires forall i | 0 <= i < |s| :: !('A' <= s[i] <= 'Z')
    ensures ToLower(s) == s
  {
  }

  /** `s.endswith(suffix)`. */
  predicate EndsWith(s: string, suffix: string)
  {
    |suffix| <= |s| && s[|s| - |suffix|..] == suffix
  }

  /** `EndsWith` seen character by character: the last `|suffix|` characters of `s` are those of `suffix`. */
  lemma EndsWithAt(s: string, suffix: string)
    ensures EndsWith(s, suffix) <==>
      |suffix| <= |s| && forall i | 0 <= i < |suffix| :: s[|s| - |suffix| + i] == suffix[i]
  {
    if |suffix| <= |s| && forall i | 0 <= i < |suffix| :: s[|s| - |suffix| + i] == suffix[i] {
      assert s[|s| - |suffix|..] == suffix;
    }
  }

  /** `pat` occurs in `s` starting at index `i`. */
  predicate OccursAt(s: string, pat: string, i: int)
  {
    0 <= i && i + |pat| <= |s| && s[i..i + |pat|] == pat
  }

  /** `pat in s`. */
  predicate Contains(s: string, pat: string)
  {
    exists i | 0 <= i <= |s| - |pat| :: OccursAt(s, pat, i)
  }

  /** `sep.join(xs)`. */
  function Join(xs: seq<string>, sep: string): (r: string)
  {
    if |xs| == 0 then ""
    else if |xs| == 1 then xs[0]
    else xs[0] + sep + Join(xs[1..], sep)
  }

  /** `''.join(xs)`: what `writelines` and successive `write` calls put in a file. */
  function Concat(xs: seq<string>): (r: string)
  {
    if xs == [] then "" else xs[0] + Concat(xs[1..])
  }

  /** `s.replace(pat, '')` for a non-empty `pat`: scans left to right and deletes
      every non-overlapping occurrence. */
  function RemoveAll(s: string, pat: string): (r: string)
    requires |pat| > 0
    ensures |r| <= |s|
    decreases |s|
  {
    if |s| < |pat| then s
    else if s[..|pat|] == pat then RemoveAll(s[|pat|..], pat)
    else [s[0]] + RemoveAll(s[1..], pat)
  }

  /** `s.split(pat)` for a non-empty `pat`: the pieces between the non-overlapping
      occurrences of `pat` found left to right. */
  function Split(s: string, pat: string): (r: seq<string>)
    requires |pat| > 0
    ensures |r| >= 1
    decreases |s|
  {
    if |s| < |pat| then [s]
    else if s[..|pat|] == pat then [""] + Split(s[|pat|..], pat)
    else
      var rest := Split(s[1..], pat);
      [[s[0]] + rest[0]] + rest[1..]
  }

  /** The first piece of a split is a prefix of the string that was split. */
  lemma {:induction false} SplitHeadIsPrefix(s: string, pat: string)
    requires |pat| > 0
    ensures |Split(s, pat)[0]| <= |s| && Split(s, pat)[0] == s[..|Split(s, pat)[0]|]
    decreases |s|
  {
    if |s| < |pat| {
      assert Split(s, pat)[0] == s == s[..|s|];
    } else if s[..|pat|] == pat {
      assert Split(s, pat)[0] == "" == s[..0];
    } else {
      var rest := Split(s[1..], pat);
      var h := rest[0];
      SplitHeadIsPrefix(s[1..], pat);
      assert Split(s, pat)[0] == [s[0]] + h;
      assert s[..1 + |h|] == [s[0]] + s[1..][..|h|];
    }
  }

  lemma AppendAssoc(a: string, b: string, c: string)
    ensures a + b + c == a + (b + c)
  {
  }

  lemma JoinCons(c: char, x: string, xs: seq<string>, sep: string)
    ensures Join([[c] + x] + xs, sep) == [c] + Join([x] + xs, sep)
  {
    if |xs| == 0 {
      assert [[c] + x] + xs == [[c] + x];
    } else {
      assert ([[c] + x] + xs)[1..] == xs;
      assert ([x] + xs)[1..] == xs;
    }
  }

  /** Joining a non-empty tail after one more element puts one separator between. */
  lemma JoinOfCons(x: string, xs: seq<string>, sep: string)
    requires xs != []
    ensures Join([x] + xs, sep) == x + sep + Join(xs, sep)
  {
    assert ([x] + xs)[1..] == xs;
  }

  lemma JoinFour(a: string, b: string, c: string, d: string, sep: string)
    ensures Join([a, b, c, d], sep) == a + sep + b + sep + c + sep + d
  {
    JoinOfCons(c, [d], sep);
    assert [c, d] == [c] + [d];
    JoinOfCons(b, [c, d], sep);
    assert [b, c, d] == [b] + [c, d];
    JoinOfCons(a, [b, c, d], sep);
    assert [a, b, c, d] == [a] + [b, c, d];
  }

  lemma JoinFive(a: string, b: string, c: string, d: string, e: string, sep: string)
    ensures Join([a, b, c, d, e], sep) == a + sep + b + sep + c + sep + d + sep + e
  {
    JoinFour(b, c, d, e, sep);
    JoinOfCons(a, [b, c, d, e], sep);
    assert [a, b, c, d, e] == [a] + [b, c, d, e];
  }

  lemma JoinConsEmpty(xs: seq<string>, sep: string)
    requires |xs| >= 1
    ensures Join([""] + xs, sep) == sep + Join(xs, sep)
  {
    assert ([""] + xs)[1..] == xs;
  }

  /** Splitting and joining back with the same separator gives the original string. */
  lemma {:induction false} JoinSplit(s: string, pat: string)
    requires |pat| > 0
    ensures Join(Split(s, pat), pat) == s
    decreases |s|
  {
    if |s| < |pat| {
    } else if s[..|pat|] == pat {
      var t := s[|pat|..];
      JoinSplit(t, pat);
      JoinConsEmpty(Split(t, pat), pat);
      assert s == pat + t;
    } else {
      var rest := Split(s[1..], pat);
      JoinSplit(s[1..], pat);
      JoinCons(s[0], rest[0], rest[1..], pat);
      assert [rest[0]] + rest[1..] == rest;
      assert s == [s[0]] + s[1..];
    }
  }

  /** Deleting every occurrence is concatenating the pieces of the split. */
  lemma {:induction false} ConcatSplit(s: string, pat: string)
    requires |pat| > 0
    ensures Concat(Split(s, pat)) == RemoveAll(s, pat)
    decreases |s|
  {
    if |s| < |pat| {
    } else if s[..|pat|] == pat {
      var rest := Split(s[|pat|..], pat);
      ConcatSplit(s[|pat|..], pat);
      assert ([""] + rest)[1..] == rest;
    } else {
      var rest := Split(s[1..], pat);
      ConcatSplit(s[1..], pat);
      var r := [[s[0]] + rest[0]] + rest[1..];
      assert r[1..] == rest[1..];
      assert Concat(rest) == rest[0] + Concat(rest[1..]);
    }
  }

  /** No piece of a split contains the separator. */
  lemma {:induction false} SplitPiecesFree(s: string, pat: string, j: int)
    requires |pat| > 0
    requires 0 <= j < |Split(s, pat)|
    ensures !Contains(Split(s, pat)[j], pat)
    decreases |s|
  {
    if |s| < |pat| {
      if OccursAt(s, pat, 0) {}
      assert forall i :: !OccursAt(s, pat, i);
    } else if s[..|pat|] == pat {
      if j > 0 {
        SplitPiecesFree(s[|pat|..], pat, j - 1);
      } else {
        assert forall i :: !OccursAt("", pat, i);
      }
    } else {
      var rest := Split(s[1..], pat);
      if j > 0 {
        SplitPiecesFree(s[1..], pat, j);
      } else {
        var h := [s[0]] + rest[0];
        SplitPiecesFree(s[1..], pat, 0);
        SplitHeadIsPrefix(s[1..], pat);
        assert h == s[..|h|];
        forall i | OccursAt(h, pat, i)
          ensures false
        {
          if i > 0 {
            assert h[i..i + |pat|] == rest[0][i - 1..i - 1 + |pat|];
            assert OccursAt(rest[0], pat, i - 1);
          }
        }
      }
    }
  }

  /** The first piece of a split ends at the leftmost occurrence of the pattern:
      no occurrence starts inside it. */
  lemma {:induction false} SplitHeadNoEarlier(s: string, pat: string)
    requires |pat| > 0
    ensures forall i | 0 <= i < |Split(s, pat)[0]| :: !OccursAt(s, pat, i)
    decreases |s|
  {
    if |s| >= |pat| && s[..|pat|] != pat {
      var rest := Split(s[1..], pat);
      var h := rest[0];
      SplitHeadNoEarlier(s[1..], pat);
      assert Split(s, pat)[0] == [s[0]] + h;
      forall i | 0 < i < 1 + |h| ensures !OccursAt(s, pat, i) {
        OccursShift(s, pat, i);
      }
      assert !OccursAt(s, pat, 0);
    }
  }

  /** An occurrence past the first character is an occurrence in the tail. */
  lemma OccursShift(s: string, pat: string, i: int)
    requires 0 < i && |s| > 0
    ensures OccursAt(s, pat, i) <==> OccursAt(s[1..], pat, i - 1)
  {
    if i + |pat| <= |s| {
      assert s[i..i + |pat|] == s[1..][i - 1..i - 1 + |pat|];
    }
  }

  /** When there is more than one piece, an occurrence starts right after the first. */
  lemma {:induction false} SplitHeadThenOccurs(s: string, pat: string)
    requires |pat| > 0
    ensures |Split(s, pat)| > 1 ==> OccursAt(s, pat, |Split(s, pat)[0]|)
    decreases |s|
  {
    if |s| < |pat| {
    } else if s[..|pat|] == pat {
      assert Split(s, pat)[0] == "";
      assert OccursAt(s, pat, 0);
    } else {
      var rest := Split(s[1..], pat);
      var h := rest[0];
      SplitHeadThenOccurs(s[1..], pat);
      assert Split(s, pat) == [[s[0]] + h] + rest[1..];
      if |rest| > 1 {
        assert OccursAt(s[1..], pat, |h|);
        assert s[1 + |h|..1 + |h| + |pat|] == s[1..][|h|..|h| + |pat|];
      }
    }
  }

  /** The pieces after the first are the split of what follows that occurrence. */
  lemma {:induction false} SplitTail(s: string, pat: string)
    requires |pat| > 0
    ensures |Split(s, pat)| > 1 ==>
      && |Split(s, pat)[0]| + |pat| <= |s|
      && Split(s, pat)[1..] == Split(s[|Split(s, pat)[0]| + |pat|..], pat)
    decreases |s|
  {
    if |s| < |pat| {
    } else if s[..|pat|] == pat {
      assert Split(s, pat) == [""] + Split(s[|pat|..], pat);
    } else {
      var rest := Split(s[1..], pat);
      var h := rest[0];
      SplitTail(s[1..], pat);
      assert Split(s, pat) == [[s[0]] + h] + rest[1..];
      if |rest| > 1 {
        assert s[1..][|h| + |pat|..] == s[1 + |h| + |pat|..];
      }
    }
  }

  /** A string with no occurrence of the pattern comes back unchanged. */
  lemma {:induction false} RemoveAllAbsent(s: string, pat: string)
    requires |pat| > 0
    requires !Contains(s, pat)
    ensures RemoveAll(s, pat) == s
    decreases |s|
  {
    if |s| < |pat| {
    } else {
      assert !OccursAt(s, pat, 0);
      forall i | OccursAt(s[1..], pat, i)
        ensures false
      {
        assert s[1..][i..i + |pat|] == s[i + 1..i + 1 + |pat|];
        assert OccursAt(s, pat, i + 1);
      }
      RemoveAllAbsent(s[1..], pat);
      assert s == [s[0]] + s[1..];
    }
  }

  /** When the pattern occurs only as a prefix, deleting it strips that prefix. */
  lemma {:induction false} RemoveAllOnlyPrefix(pat: string, t: string)
    requires |pat| > 0
    requires !Contains(t, pat)
    ensures RemoveAll(pat + t, pat) == t
  {
    var s := pat + t;
    assert s[..|pat|] == pat;
    assert s[|pat|..] == t;
    RemoveAllAbsent(t, pat);
  }

  // Code-point order on strings, as Python's `<=` on `str`.

  /** `a <= b` for Python strings: lexicographic by code point, a proper prefix first. */
  predicate StrLe(a: string, b: string)
    ensures a <= b ==> StrLe(a, b)
    decreases |a|
  {
    a == [] || (b != [] && (a[0] < b[0] || (a[0] == b[0] && StrLe(a[1..], b[1..]))))
  }

  lemma {:induction false} StrLeRefl(a: string)
    ensures StrLe(a, a)
    decreases |a|
  {
    if a != [] { StrLeRefl(a[1..]); }
  }

  lemma {:induction false} StrLeTotal(a: string, b: string)
    ensures StrLe(a, b) || StrLe(b, a)
    decreases |a|
  {
    if a != [] && b != [] && a[0] == b[0] { StrLeTotal(a[1..], b[1..]); }
  }

  lemma {:induction false} StrLeAntisym(a: string, b: string)
    requires StrLe(a, b) && StrLe(b, a)
    ensures a == b
    decreases |a|
  {
    if a != [] {
      StrLeAntisym(a[1..], b[1..]);
      assert a == [a[0]] + a[1..] && b == [b[0]] + b[1..];
    }
  }

  lemma {:induction false} StrLeTrans(a: string, b: string, c: string)
    requires StrLe(a, b) && StrLe(b, c)
    ensures StrLe(a, c)
    decreases |a|
  {
    if a != [] && a[0] == b[0] && b[0] == c[0] { StrLeTrans(a[1..], b[1..], c[1..]); }
  }

  // Where each element of a joined or concatenated sequence lands.

  /** Index in `Join(xs, sep)` at which `xs[i]` begins. */
  function JoinOffset(xs: seq<string>, sep: string, i: nat): (offset: nat)
    requires i < |xs|
  {
    if i == 0 then 0 else |xs[0]| + |sep| + JoinOffset(xs[1..], sep, i - 1)
  }

  /** `Join(xs, sep)` holds `xs[i]` at `JoinOffset(xs, sep, i)`. */
  lemma {:induction false} JoinAt(xs: seq<string>, sep: string, i: nat)
    requires i < |xs|
    ensures JoinOffset(xs, sep, i) + |xs[i]| <= |Join(xs, sep)|
    ensures Join(xs, sep)[JoinOffset(xs, sep, i)..JoinOffset(xs, sep, i) + |xs[i]|] == xs[i]
  {
    if i > 0 {
      JoinAt(xs[1..], sep, i - 1);
      var k := |xs[0]| + |sep|;
      var o := JoinOffset(xs[1..], sep, i - 1);
      assert Join(xs, sep) == xs[0] + sep + Join(xs[1..], sep);
      assert (xs[0] + sep + Join(xs[1..], sep))[k + o..k + o + |xs[i]|]
          == Join(xs[1..], sep)[o..o + |xs[i]|];
    } else if |xs| > 1 {
      assert Join(xs, sep) == xs[0] + (sep + Join(xs[1..], sep));
    }
  }

  /** With a non-empty separator, later elements begin strictly after earlier ones end. */
  lemma {:induction false} JoinOffsetIncreasing(xs: seq<string>, sep: string, i: nat, j: nat)
    requires i < j < |xs|
    ensures JoinOffset(xs, sep, i) + |xs[i]| + |sep| <= JoinOffset(xs, sep, j)
  {
    if i > 0 {
      JoinOffsetIncreasing(xs[1..], sep, i - 1, j - 1);
    }
  }

  /** Index in `Concat(xs)` at which `xs[i]` begins. */
  function ConcatOffset(xs: seq<string>, i: nat): (offset: nat)
    requires i < |xs|
  {
    if i == 0 then 0 else |xs[0]| + ConcatOffset(xs[1..], i - 1)
  }

  /** `Concat(xs)` holds `xs[i]` at `ConcatOffset(xs, i)`. */
  lemma {:induction false} ConcatAt(xs: seq<string>, i: nat)
    requires i < |xs|
    ensures ConcatOffset(xs, i) + |xs[i]| <= |Concat(xs)|
    ensures Concat(xs)[ConcatOffset(xs, i)..ConcatOffset(xs, i) + |xs[i]|] == xs[i]
  {
    if i > 0 {
      ConcatAt(xs[1..], i - 1);
      var o := ConcatOffset(xs[1..], i - 1);
      assert (xs[0] + Concat(xs[1..]))[|xs[0]| + o..|xs[0]| + o + |xs[i]|]
          == Concat(xs[1..])[o..o + |xs[i]|];
    }
  }

  /** Later elements of a concatenation begin no earlier than earlier ones end. */
  lemma {:induction false} ConcatOffsetIncreasing(xs: seq<string>, i: nat, j: nat)
    requires i < j < |xs|
    ensures ConcatOffset(xs, i) + |xs[i]| <= ConcatOffset(xs, j)
  {
    if i > 0 {
      ConcatOffsetIncreasing(xs[1..], i - 1, j - 1);
    }
  }

  /** Appending an element appends its text to the concatenation. */
  lemma {:induction false} ConcatAppend(xs: seq<string>, x: string)
    ensures Concat(xs + [x]) == Concat(xs) + x
  {
    if xs != [] {
      assert (xs + [x])[1..] == xs[1..] + [x];
      ConcatAppend(xs[1..], x);
    }
  }

  /** Concatenation distributes over appending sequences. */
  lemma {:induction false} ConcatSplice(xs: seq<string>, ys: seq<string>)
    ensures Concat(xs + ys) == Concat(xs) + Concat(ys)
  {
    if xs != [] {
      assert (xs + ys)[1..] == xs[1..] + ys;
      ConcatSplice(xs[1..], ys);
    } else {
      assert xs + ys == ys;
    }
  }

  /** When element `i` of `xs` is `a + b + c`, `Concat(xs)` holds `b` just past `a`. */
  lemma ConcatAtPart(xs: seq<string>, i: nat, a: string, b: string, c: string)
    requires i < |xs| && xs[i] == a + b + c
    ensures ConcatOffset(xs, i) + |a| + |b| <= |Concat(xs)|
    ensures Concat(xs)[ConcatOffset(xs, i) + |a|..ConcatOffset(xs, i) + |a| + |b|] == b
  {
    ConcatAt(xs, i);
    SliceOfPart(Concat(xs), ConcatOffset(xs, i), xs[i], a, b, c);
  }

  /** A piece of a text that holds `a + b + c` at `q` holds `b` at `q + |a|`. */
  lemma SliceOfPart(text: string, q: nat, line: string, a: string, b: string, c: string)
    requires line == a + b + c
    requires q + |line| <= |text| && text[q..q + |line|] == line
    ensures q + |a| + |b| <= |text| && text[q + |a|..q + |a| + |b|] == b
  {
    forall k | 0 <= k < |b| ensures text[q + |a| + k] == b[k] {
      assert text[q + |a| + k] == text[q..q + |line|][|a| + k];
      assert line[|a| + k] == b[k];
    }
  }
}
