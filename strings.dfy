/**
 * The PHP string functions the core relies on, over `seq<char>`:
 * `str_starts_with`, `strtoupper`, `explode`, `implode` and `preg_replace`
 * with a literal pattern.
 */
module Strings {

  /** `p` is a prefix of `s`: PHP's `str_starts_with(s, p)`. */
  predicate IsPrefix(p: string, s: string) {
    |p| <= |s| && s[..|p|] == p
  }

  /** `pat` occurs somewhere in `s`. */
  predicate Contains(s: string, pat: string)
    decreases |s|
  {
    IsPrefix(pat, s) || (|s| > 0 && Contains(s[1..], pat))
  }

  /** ASCII upper-casing of one character, as `strtoupper` does. */
  function UpperChar(c: char): char {
    if 'a' <= c <= 'z' then (c as int - 32) as char else c
  }

  /** `strtoupper`. */
  function Upper(s: string): (u: string)
    ensures |u| == |s|
    ensures forall i :: 0 <= i < |s| ==> u[i] == UpperChar(s[i])
    decreases |s|
  {
    if s == [] then [] else [UpperChar(s[0])] + Upper(s[1..])
  }

  /**
   * `explode(sep, s)`: the pieces of `s` between the leftmost,
   * non-overlapping occurrences of `sep`. PHP rejects an empty separator.
   */
  function Explode(sep: string, s: string): (parts: seq<string>)
    requires sep != ""
    ensures |parts| >= 1
    decreases |s|
  {
    if |s| < |sep| then [s]
    else if IsPrefix(sep, s) then [""] + Explode(sep, s[|sep|..])
    else
      var rest := Explode(sep, s[1..]);
      [[s[0]] + rest[0]] + rest[1..]
  }

  /** `implode(glue, parts)`. */
  function Implode(glue: string, parts: seq<string>): string
    decreases |parts|
  {
    if |parts| == 0 then ""
    else if |parts| == 1 then parts[0]
    else parts[0] + glue + Implode(glue, parts[1..])
  }

  /**
   * `explode(sep, s, limit)` for a positive limit: at most `limit` pieces,
   * the last one holding the rest of the string.
   */
  function ExplodeLimit(sep: string, s: string, limit: nat): (parts: seq<string>)
    requires sep != "" && limit >= 1
    ensures 1 <= |parts| <= limit
    ensures Implode(sep, parts) == s
    ensures |Explode(sep, s)| <= limit ==> parts == Explode(sep, s)
    ensures |Explode(sep, s)| > limit ==> |parts| == limit
    ensures parts[..|parts| - 1] == Explode(sep, s)[..|parts| - 1]
  {
    var all := Explode(sep, s);
    ImplodeExplode(sep, s);
    if |all| <= limit then all
    else
      ImplodeSplit(sep, all, limit - 1);
      all[..limit - 1] + [Implode(sep, all[limit - 1..])]
  }

  /**
   * `preg_replace('/pat/', rep, s)` for a pattern without metacharacters:
   * every leftmost, non-overlapping occurrence of `pat` becomes `rep`, and the
   * inserted text is not scanned again.
   */
  function ReplaceAll(s: string, pat: string, rep: string): string
    requires pat != ""
    decreases |s|
  {
    if |s| < |pat| then s
    else if IsPrefix(pat, s) then rep + ReplaceAll(s[|pat|..], pat, rep)
    else [s[0]] + ReplaceAll(s[1..], pat, rep)
  }

  // ---------------------------------------------------------------------
  // implode / explode

  lemma ImplodeConsHead(glue: string, c: string, parts: seq<string>)
    requires |parts| >= 1
    ensures Implode(glue, [c + parts[0]] + parts[1..]) == c + Implode(glue, parts)
  {
    var q := [c + parts[0]] + parts[1..];
    if |parts| > 1 {
      assert q[1..] == parts[1..];
    }
  }

  /** Joining the first `k` pieces and the rest separately, then with the glue, is joining them all. */
  lemma {:induction false} ImplodeSplit(glue: string, parts: seq<string>, k: nat)
    requires k < |parts|
    ensures Implode(glue, parts[..k] + [Implode(glue, parts[k..])]) == Implode(glue, parts)
    decreases k
  {
    var q := parts[..k] + [Implode(glue, parts[k..])];
    if k == 0 {
      assert q == [Implode(glue, parts[k..])];
      assert parts[k..] == parts;
    } else {
      assert q[0] == parts[0];
      assert q[1..] == parts[1..][..k - 1] + [Implode(glue, parts[1..][k - 1..])];
      ImplodeSplit(glue, parts[1..], k - 1);
    }
  }

  /** `implode` undoes `explode`. */
  lemma {:induction false} ImplodeExplode(sep: string, s: string)
    requires sep != ""
    ensures Implode(sep, Explode(sep, s)) == s
    decreases |s|
  {
    if |s| < |sep| {
    } else if IsPrefix(sep, s) {
      var rest := Explode(sep, s[|sep|..]);
      ImplodeExplode(sep, s[|sep|..]);
      assert ([""] + rest)[1..] == rest;
      assert s == s[..|sep|] + s[|sep|..];
    } else {
      var rest := Explode(sep, s[1..]);
      ImplodeExplode(sep, s[1..]);
      ImplodeConsHead(sep, [s[0]], rest);
      assert s == [s[0]] + s[1..];
    }
  }

  lemma {:induction false} ShortNotContains(s: string, pat: string)
    requires |s| < |pat|
    ensures !Contains(s, pat)
    decreases |s|
  {
    if |s| > 0 {
      ShortNotContains(s[1..], pat);
    }
  }

  lemma PrefixTrans(a: string, b: string, c: string)
    requires IsPrefix(a, b) && IsPrefix(b, c)
    ensures IsPrefix(a, c)
  {
    assert c[..|a|] == c[..|b|][..|a|];
  }

  /** The first piece of `explode(sep, s)` is a prefix of `s`. */
  lemma ExplodeHeadPrefix(sep: string, s: string)
    requires sep != ""
    ensures IsPrefix(Explode(sep, s)[0], s)
  {
    var parts := Explode(sep, s);
    ImplodeExplode(sep, s);
    if |parts| > 1 {
      assert Implode(sep, parts) == parts[0] + (sep + Implode(sep, parts[1..]));
    }
  }

  /** No piece of `explode(sep, s)` contains the separator: every occurrence was cut. */
  lemma {:induction false} ExplodePartsFree(sep: string, s: string)
    requires sep != ""
    ensures forall i :: 0 <= i < |Explode(sep, s)| ==> !Contains(Explode(sep, s)[i], sep)
    decreases |s|
  {
    var parts := Explode(sep, s);
    if |s| < |sep| {
      ShortNotContains(s, sep);
    } else if IsPrefix(sep, s) {
      ExplodePartsFree(sep, s[|sep|..]);
      assert !Contains("", sep) by { ShortNotContains("", sep); }
      assert forall i :: 1 <= i < |parts| ==> parts[i] == Explode(sep, s[|sep|..])[i - 1];
    } else {
      var rest := Explode(sep, s[1..]);
      ExplodePartsFree(sep, s[1..]);
      var head := [s[0]] + rest[0];
      assert head[1..] == rest[0];
      assert !IsPrefix(sep, head) by {
        ExplodeHeadPrefix(sep, s);
        if IsPrefix(sep, head) {
          PrefixTrans(sep, head, s);
        }
      }
      assert forall i :: 1 <= i < |parts| ==> parts[i] == rest[i];
    }
  }

  /** `explode` leaves `s` whole exactly when the separator does not occur in it. */
  lemma {:induction false} ExplodeWhole(sep: string, s: string)
    requires sep != ""
    ensures Explode(sep, s) == [s] <==> !Contains(s, sep)
    decreases |s|
  {
    if |s| < |sep| {
      ShortNotContains(s, sep);
    } else if Contains(s, sep) {
      ExplodePartsFree(sep, s);
      assert !Contains(Explode(sep, s)[0], sep);
    } else {
      assert !IsPrefix(sep, s) && !Contains(s[1..], sep);
      ExplodeWhole(sep, s[1..]);
      var rest := Explode(sep, s[1..]);
      assert [s[0]] + s[1..] == s;
      assert [[s[0]] + rest[0]] + rest[1..] == [s];
    }
  }

  /** A character of any piece of `explode(sep, s)` is a character of `s`. */
  lemma ExplodePartsChars(sep: string, s: string, c: char)
    requires sep != "" && c !in s
    ensures forall i :: 0 <= i < |Explode(sep, s)| ==> c !in Explode(sep, s)[i]
  {
    ImplodeExplode(sep, s);
    ImplodeChars(sep, Explode(sep, s), c);
  }

  lemma {:induction false} ImplodeChars(glue: string, parts: seq<string>, c: char)
    requires c !in Implode(glue, parts)
    ensures forall i :: 0 <= i < |parts| ==> c !in parts[i]
    decreases |parts|
  {
    if |parts| > 1 {
      var rest := Implode(glue, parts[1..]);
      assert Implode(glue, parts) == parts[0] + glue + rest;
      assert forall x :: x in rest ==> x in Implode(glue, parts);
      ImplodeChars(glue, parts[1..], c);
      assert forall i :: 1 <= i < |parts| ==> parts[i] == parts[1..][i - 1];
    }
  }

  // ---------------------------------------------------------------------
  // preg_replace with a literal pattern

  /** Replacing every occurrence is cutting at every occurrence and gluing with the replacement. */
  lemma {:induction false} ReplaceAllIsImplodeExplode(s: string, pat: string, rep: string)
    requires pat != ""
    ensures ReplaceAll(s, pat, rep) == Implode(rep, Explode(pat, s))
    decreases |s|
  {
    if |s| < |pat| {
    } else if IsPrefix(pat, s) {
      var rest := Explode(pat, s[|pat|..]);
      ReplaceAllIsImplodeExplode(s[|pat|..], pat, rep);
      assert ([""] + rest)[1..] == rest;
    } else {
      var rest := Explode(pat, s[1..]);
      ReplaceAllIsImplodeExplode(s[1..], pat, rep);
      ImplodeConsHead(rep, [s[0]], rest);
    }
  }

  /** Text before the first character of the pattern can never start a match and is copied. */
  lemma {:induction false} ReplaceAllSkip(x: string, y: string, pat: string, rep: string)
    requires pat != "" && pat[0] !in x
    ensures ReplaceAll(x + y, pat, rep) == x + ReplaceAll(y, pat, rep)
    decreases |x|
  {
    if |x| > 0 {
      var s := x + y;
      assert s[0] == x[0];
      assert s[1..] == x[1..] + y;
      ReplaceAllSkip(x[1..], y, pat, rep);
      assert x == [x[0]] + x[1..];
    } else {
      assert x + y == y;
    }
  }

  /** A string without the pattern's first character is left as it is. */
  lemma ReplaceAllFree(s: string, pat: string, rep: string)
    requires pat != "" && pat[0] !in s
    ensures ReplaceAll(s, pat, rep) == s
  {
    ReplaceAllSkip(s, "", pat, rep);
    assert s + "" == s;
  }

  /** A match at the front is replaced and scanning resumes after it. */
  lemma ReplaceAllMatch(y: string, pat: string, rep: string)
    requires pat != ""
    ensures ReplaceAll(pat + y, pat, rep) == rep + ReplaceAll(y, pat, rep)
  {
    var s := pat + y;
    assert s[..|pat|] == pat;
    assert s[|pat|..] == y;
  }

  /** A character that does not start a match is copied. */
  lemma ReplaceAllNoMatch(c: char, y: string, pat: string, rep: string)
    requires pat != "" && !IsPrefix(pat, [c] + y)
    ensures ReplaceAll([c] + y, pat, rep) == [c] + ReplaceAll(y, pat, rep)
  {
    var s := [c] + y;
    assert s[1..] == y;
    if |s| < |pat| {
      assert |y| < |pat|;
    }
  }

  /** A string whose character at some position differs from the pattern's does not start with it. */
  lemma NotPrefixAt(pat: string, s: string, i: nat)
    requires i < |pat| && i < |s| && s[i] != pat[i]
    ensures !IsPrefix(pat, s)
  {
    if |pat| <= |s| {
      assert s[..|pat|][i] == s[i];
    }
  }

  /** Text before the separator's first character is glued to the first piece. */
  lemma {:induction false} ExplodeSkip(sep: string, x: string, y: string)
    requires sep != "" && sep[0] !in x
    ensures Explode(sep, x + y) == [x + Explode(sep, y)[0]] + Explode(sep, y)[1..]
    decreases |x|
  {
    if |x| > 0 {
      var s := x + y;
      assert s[0] == x[0];
      assert s[1..] == x[1..] + y;
      var parts := Explode(sep, y);
      if |s| < |sep| {
        assert Explode(sep, y) == [y];
      } else {
        NotPrefixAt(sep, s, 0);
        ExplodeSkip(sep, x[1..], y);
        var rest := Explode(sep, s[1..]);
        assert rest == [x[1..] + parts[0]] + parts[1..];
        assert [s[0]] + rest[0] == x + parts[0];
        assert rest[1..] == parts[1..];
      }
    } else {
      var parts := Explode(sep, y);
      assert x + y == y && x + parts[0] == parts[0];
      assert [parts[0]] + parts[1..] == parts;
    }
  }

  /** A separator at the front cuts off an empty first piece. */
  lemma ExplodeMatch(sep: string, y: string)
    requires sep != ""
    ensures Explode(sep, sep + y) == [""] + Explode(sep, y)
  {
    var s := sep + y;
    assert s[..|sep|] == sep;
    assert s[|sep|..] == y;
  }

  /** One occurrence of the pattern between two pieces that cannot start a match. */
  lemma ReplaceAllOnce(a: string, pat: string, b: string, rep: string)
    requires pat != "" && pat[0] !in a && pat[0] !in b
    ensures ReplaceAll(a + (pat + b), pat, rep) == a + (rep + b)
  {
    ReplaceAllSkip(a, pat + b, pat, rep);
    ReplaceAllMatch(b, pat, rep);
    ReplaceAllFree(b, pat, rep);
  }

  /** A ':' followed by a piece that differs from the pattern's second character is copied with that piece. */
  lemma ReplaceAllPastColon(b: string, y: string, pat: string, rep: string)
    requires |pat| >= 2 && pat[0] == ':' && ':' !in b && |b| > 0 && b[0] != pat[1]
    ensures ReplaceAll(":" + (b + y), pat, rep) == ":" + (b + ReplaceAll(y, pat, rep))
  {
    var s := ":" + (b + y);
    NotPrefixAt(pat, s, 1);
    ReplaceAllNoMatch(':', b + y, pat, rep);
    ReplaceAllSkip(b, y, pat, rep);
  }

  /** A string without the separator's first character is one piece. */
  lemma ExplodeFree(sep: string, s: string)
    requires sep != "" && sep[0] !in s
    ensures Explode(sep, s) == [s]
  {
    ExplodeSkip(sep, s, "");
    assert s + "" == s;
  }
}
