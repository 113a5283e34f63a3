/**
 * The handful of Rust string operations the core relies on, stated over
 * `seq<char>`: `str::split` on one character, `[String]::join`,
 * `str::contains` on a string pattern, and `str::replace` of one character.
 */
module Strings {

  /** `s.split(sep)`: the pieces between consecutive occurrences of `sep`,
      empty pieces included, so a string with k separators has k + 1 pieces. */
  function Split(s: string, sep: char): (parts: seq<string>)
    ensures |parts| >= 1
    ensures forall k :: 0 <= k < |parts| ==> sep !in parts[k]
    decreases |s|
  {
    if s == [] then [""]
    else
      var rest := Split(s[1..], sep);
      if s[0] == sep then [""] + rest
      else [[s[0]] + rest[0]] + rest[1..]
  }

  /** `parts.join(sep)`: the pieces with `sep` between neighbours; `""` for no pieces. */
  function Join(parts: seq<string>, sep: string): string
    decreases |parts|
  {
    if parts == [] then ""
    else if |parts| == 1 then parts[0]
    else parts[0] + sep + Join(parts[1..], sep)
  }

  /** Every occurrence of `from` replaced by `to`, all other characters in place. */
  function Replace(s: string, from: char, to: char): string
    decreases |s|
  {
    if s == [] then ""
    else [if s[0] == from then to else s[0]] + Replace(s[1..], from, to)
  }

  /** `s` with every character that occurs in `cs` deleted (`replace(c, "")` for each c). */
  function Without(s: string, cs: seq<char>): (r: string)
    ensures |r| <= |s|
    ensures forall k :: 0 <= k < |r| ==> r[k] !in cs
    decreases |s|
  {
    if s == [] then ""
    else (if s[0] in cs then "" else [s[0]]) + Without(s[1..], cs)
  }

  /** `needle` occurs in `hay` starting at position `i`. */
  predicate OccursAt(needle: string, hay: string, i: int)
  {
    0 <= i <= |hay| - |needle| && hay[i..i + |needle|] == needle
  }

  /** `hay.contains(needle)`: `needle` occurs in `hay` at some position. */
  predicate IsSubstring(needle: string, hay: string)
  {
    exists i :: 0 <= i <= |hay| - |needle| && OccursAt(needle, hay, i)
  }

  // ---------------------------------------------------------------------
  // split / join

  lemma {:induction false} JoinConsHead(x: char, ps: seq<string>, sep: string)
    requires |ps| >= 1
    ensures Join([[x] + ps[0]] + ps[1..], sep) == [x] + Join(ps, sep)
  {
    var qs := [[x] + ps[0]] + ps[1..];
    assert qs[1..] == ps[1..];
    if |ps| == 1 {
    } else {
      assert Join(qs, sep) == [x] + ps[0] + sep + Join(ps[1..], sep);
    }
  }

  /** Splitting on `c` and joining with `d` replaces every `c` by `d`. */
  lemma {:induction false} JoinSplitIsReplace(s: string, c: char, d: char)
    ensures Join(Split(s, c), [d]) == Replace(s, c, d)
    decreases |s|
  {
    if s != [] {
      var rest := Split(s[1..], c);
      JoinSplitIsReplace(s[1..], c, d);
      if s[0] == c {
        var parts := [""] + rest;
        assert parts[1..] == rest;
        assert Join(parts, [d]) == "" + [d] + Join(rest, [d]);
      } else {
        JoinConsHead(s[0], rest, [d]);
      }
    }
  }

  lemma {:induction false} ReplaceSame(s: string, c: char)
    ensures Replace(s, c, c) == s
    decreases |s|
  {
    if s != [] {
      ReplaceSame(s[1..], c);
      assert s == [s[0]] + s[1..];
    }
  }

  /** Replacing a character that does not occur changes nothing. */
  lemma {:induction false} ReplaceAbsent(s: string, c: char, d: char)
    requires c !in s
    ensures Replace(s, c, d) == s
    decreases |s|
  {
    if s != [] {
      assert c !in s[1..];
      ReplaceAbsent(s[1..], c, d);
      assert s == [s[0]] + s[1..];
    }
  }

  /** Joining the pieces of a split with the same separator gives the string back. */
  lemma SplitJoinRoundTrip(s: string, c: char)
    ensures Join(Split(s, c), [c]) == s
  {
    JoinSplitIsReplace(s, c, c);
    ReplaceSame(s, c);
  }

  lemma {:induction false} SplitWithoutSeparator(s: string, c: char)
    requires c !in s
    ensures Split(s, c) == [s]
    decreases |s|
  {
    if s != [] {
      assert c !in s[1..];
      SplitWithoutSeparator(s[1..], c);
      assert s == [s[0]] + s[1..];
    }
  }

  lemma {:induction false} SplitAfterPiece(p: string, c: char, t: string)
    requires c !in p
    ensures Split(p + [c] + t, c) == [p] + Split(t, c)
    decreases |p|
  {
    var s := p + [c] + t;
    if p == [] {
      assert s == [c] + t;
      assert s[1..] == t;
    } else {
      assert s[0] == p[0];
      assert s[1..] == p[1..] + [c] + t;
      assert c !in p[1..];
      SplitAfterPiece(p[1..], c, t);
      assert p == [p[0]] + p[1..];
    }
  }

  /** A separator followed by a separator-free tail adds that tail as the last piece. */
  lemma {:induction false} SplitAppendPiece(x: string, c: char, y: string)
    requires c !in y
    ensures Split(x + [c] + y, c) == Split(x, c) + [y]
    decreases |x|
  {
    var s := x + [c] + y;
    if x == [] {
      assert s == [c] + y;
      assert s[1..] == y;
      SplitWithoutSeparator(y, c);
    } else {
      assert s[0] == x[0];
      assert s[1..] == x[1..] + [c] + y;
      SplitAppendPiece(x[1..], c, y);
    }
  }

  /** Splitting a join of separator-free pieces gives the pieces back. */
  lemma {:induction false} JoinSplitRoundTrip(parts: seq<string>, c: char)
    requires |parts| >= 1
    requires forall k :: 0 <= k < |parts| ==> c !in parts[k]
    ensures Split(Join(parts, [c]), c) == parts
    decreases |parts|
  {
    if |parts| == 1 {
      SplitWithoutSeparator(parts[0], c);
    } else {
      JoinSplitRoundTrip(parts[1..], c);
      SplitAfterPiece(parts[0], c, Join(parts[1..], [c]));
      assert parts == [parts[0]] + parts[1..];
    }
  }

  // ---------------------------------------------------------------------
  // contains

  lemma InMiddleIsSubstring(a: string, needle: string, b: string)
    ensures IsSubstring(needle, a + needle + b)
  {
    var hay := a + needle + b;
    assert hay[|a|..|a| + |needle|] == needle;
    assert OccursAt(needle, hay, |a|);
  }

  lemma SubstringOfSuffix(needle: string, p: string, t: string)
    requires IsSubstring(needle, t)
    ensures IsSubstring(needle, p + t)
  {
    var i :| 0 <= i <= |t| - |needle| && OccursAt(needle, t, i);
    assert (p + t)[|p| + i..|p| + i + |needle|] == needle;
    assert OccursAt(needle, p + t, |p| + i);
  }

  /** Every piece of a join occurs in the joined string. */
  lemma {:induction false} PieceIsSubstringOfJoin(parts: seq<string>, sep: string, k: nat)
    requires k < |parts|
    ensures IsSubstring(parts[k], Join(parts, sep))
    decreases |parts|
  {
    if |parts| == 1 {
      InMiddleIsSubstring("", parts[0], "");
      assert "" + parts[0] + "" == parts[0];
    } else if k == 0 {
      InMiddleIsSubstring("", parts[0], sep + Join(parts[1..], sep));
      assert "" + parts[0] + (sep + Join(parts[1..], sep)) == Join(parts, sep);
    } else {
      PieceIsSubstringOfJoin(parts[1..], sep, k - 1);
      SubstringOfSuffix(parts[k], parts[0] + sep, Join(parts[1..], sep));
    }
  }

  /** The empty string occurs in every string, and nothing longer occurs in `""`. */
  lemma SubstringOfEmpty(needle: string)
    ensures IsSubstring(needle, "") <==> needle == ""
  {
    if needle == "" {
      assert OccursAt(needle, "", 0);
    }
  }

  // ---------------------------------------------------------------------
  // deleting characters

  lemma {:induction false} WithoutNothing(s: string)
    ensures Without(s, []) == s
    decreases |s|
  {
    if s != [] {
      WithoutNothing(s[1..]);
      assert s == [s[0]] + s[1..];
    }
  }

  lemma {:induction false} WithoutAppend(a: string, b: string, cs: seq<char>)
    ensures Without(a + b, cs) == Without(a, cs) + Without(b, cs)
    decreases |a|
  {
    if a == [] {
      assert a + b == b;
    } else {
      assert (a + b)[1..] == a[1..] + b;
      WithoutAppend(a[1..], b, cs);
    }
  }

  /** Deleting `xs` and then `ys` is deleting `xs + ys` at once. */
  lemma {:induction false} WithoutTwice(s: string, xs: seq<char>, ys: seq<char>)
    ensures Without(Without(s, xs), ys) == Without(s, xs + ys)
    decreases |s|
  {
    if s != [] {
      var head := if s[0] in xs then "" else [s[0]];
      WithoutAppend(head, Without(s[1..], xs), ys);
      WithoutTwice(s[1..], xs, ys);
      if s[0] !in xs {
        assert Without(head, ys) == (if s[0] in ys then "" else [s[0]]);
      }
    }
  }

  /** Deleting characters twice is deleting them once. */
  lemma {:induction false} WithoutIdempotent(s: string, cs: seq<char>)
    ensures Without(Without(s, cs), cs) == Without(s, cs)
    decreases |s|
  {
    if s != [] {
      var head := if s[0] in cs then "" else [s[0]];
      WithoutAppend(head, Without(s[1..], cs), cs);
      WithoutIdempotent(s[1..], cs);
    }
  }

  /** Deletion keeps every other character, each with its number of occurrences. */
  lemma {:induction false} WithoutKeepsOthers(s: string, cs: seq<char>, ch: char)
    requires ch !in cs
    ensures multiset(Without(s, cs))[ch] == multiset(s)[ch]
    decreases |s|
  {
    if s != [] {
      WithoutKeepsOthers(s[1..], cs, ch);
      assert s == [s[0]] + s[1..];
    }
  }

  /** A string free of the deleted characters is left as it is. */
  lemma {:induction false} WithoutAbsent(s: string, cs: seq<char>)
    requires forall k :: 0 <= k < |s| ==> s[k] !in cs
    ensures Without(s, cs) == s
    decreases |s|
  {
    if s != [] {
      WithoutAbsent(s[1..], cs);
      assert s == [s[0]] + s[1..];
    }
  }
}
