/**
 * The string operations the game definition relies on: the ordinal
 * `String.Replace(string, string)` of .NET (every non-overlapping occurrence,
 * scanned left to right) and splitting a path on its separator character.
 */
module Strings {

  /** True when `p` occurs somewhere in `s`. */
  predicate Contains(s: string, p: string)
  {
    exists k :: 0 <= k <= |s| && p <= s[k..]
  }

  /**
   * `s.Replace(pat, rep)`: scanning left to right, every occurrence of `pat`
   * is copied as `rep` and the scan resumes after it; .NET rejects an empty
   * `pat`, hence the precondition.
   */
  function Replace(s: string, pat: string, rep: string): (r: string)
    requires |pat| > 0
    ensures |rep| <= |pat| ==> |r| <= |s|
    ensures |pat| <= |rep| ==> |s| <= |r|
    decreases |s|
  {
    if |s| == 0 then ""
    else if pat <= s then rep + Replace(s[|pat|..], pat, rep)
    else [s[0]] + Replace(s[1..], pat, rep)
  }

  /** A string without an occurrence of the pattern is left as it is. */
  lemma {:induction false} ReplaceAbsent(s: string, pat: string, rep: string)
    requires |pat| > 0 && !Contains(s, pat)
    ensures Replace(s, pat, rep) == s
    decreases |s|
  {
    if |s| > 0 {
      assert s[0..] == s;
      forall k | 0 <= k <= |s[1..]| ensures !(pat <= s[1..][k..]) {
        assert s[1..][k..] == s[k + 1..];
      }
      ReplaceAbsent(s[1..], pat, rep);
    }
  }

  /** Replacing a pattern by itself changes nothing. */
  lemma {:induction false} ReplaceIdentity(s: string, pat: string)
    requires |pat| > 0
    ensures Replace(s, pat, pat) == s
    decreases |s|
  {
    if |s| > 0 {
      if pat <= s {
        ReplaceIdentity(s[|pat|..], pat);
        assert pat + s[|pat|..] == s;
      } else {
        ReplaceIdentity(s[1..], pat);
      }
    }
  }

  /**
   * No occurrence of a pattern that lacks the character `c` can straddle `c`,
   * so the text on either side of it is replaced independently.
   */
  lemma {:induction false} ReplaceAround(a: string, c: char, b: string, pat: string, rep: string)
    requires |pat| > 0 && c !in pat
    ensures Replace(a + [c] + b, pat, rep) == Replace(a, pat, rep) + [c] + Replace(b, pat, rep)
    decreases |a|
  {
    var s := a + [c] + b;
    PrefixAcross(a, c, b, pat);
    if pat <= s {
      ReplaceAround(a[|pat|..], c, b, pat, rep);
    } else if |a| == 0 {
      assert s[1..] == b;
    } else {
      ReplaceAround(a[1..], c, b, pat, rep);
    }
  }

  /** How `a + [c] + b` starts and continues, when `c` is not in `pat`. */
  lemma PrefixAcross(a: string, c: char, b: string, pat: string)
    requires c !in pat
    ensures pat <= a + [c] + b <==> pat <= a
    ensures pat <= a ==> (a + [c] + b)[|pat|..] == a[|pat|..] + [c] + b
    ensures |a| > 0 ==> (a + [c] + b)[0] == a[0] && (a + [c] + b)[1..] == a[1..] + [c] + b
  {
    var s := a + [c] + b;
    if pat <= s {
      assert s[|a|] == c;
      assert |pat| <= |a|;
      assert pat == s[..|pat|] == a[..|pat|];
    }
    if pat <= a {
      assert pat == a[..|pat|] == s[..|pat|];
    }
  }

  /** Joins non-empty `segs` with `sep` between neighbours (the inverse of Split). */
  function Join(segs: seq<string>, sep: char): string
    requires |segs| > 0
  {
    if |segs| == 1 then segs[0] else segs[0] + [sep] + Join(segs[1..], sep)
  }

  /** Splits `s` at every `sep`; there is always at least one (possibly empty) segment. */
  function Split(s: string, sep: char): (r: seq<string>)
    ensures |r| > 0
    ensures forall i :: 0 <= i < |r| ==> sep !in r[i]
    ensures Join(r, sep) == s
    decreases |s|
  {
    if |s| == 0 then [""]
    else
      var rest := Split(s[1..], sep);
      if s[0] == sep then [""] + rest
      else
        assert [s[0]] + rest[0] + (if |rest| == 1 then "" else [sep] + Join(rest[1..], sep))
            == [s[0]] + Join(rest, sep);
        [[s[0]] + rest[0]] + rest[1..]
  }

  /** A segment without separators splits to itself. */
  lemma {:induction false} SplitPlain(a: string, sep: char)
    requires sep !in a
    ensures Split(a, sep) == [a]
    decreases |a|
  {
    if |a| > 0 {
      SplitPlain(a[1..], sep);
      assert [a[0]] + a[1..] == a;
    }
  }

  /** Splitting `a + sep + b` yields `a` followed by the segments of `b`. */
  lemma {:induction false} SplitAppend(a: string, sep: char, b: string)
    requires sep !in a
    ensures Split(a + [sep] + b, sep) == [a] + Split(b, sep)
    decreases |a|
  {
    var s := a + [sep] + b;
    if |a| == 0 {
      assert s[1..] == b;
    } else {
      assert s[1..] == a[1..] + [sep] + b;
      SplitAppend(a[1..], sep, b);
      assert [a[0]] + a[1..] == a;
    }
  }

  /** Split undoes Join for segments that hold no separator. */
  lemma {:induction false} SplitJoin(segs: seq<string>, sep: char)
    requires |segs| > 0
    requires forall i :: 0 <= i < |segs| ==> sep !in segs[i]
    ensures Split(Join(segs, sep), sep) == segs
    decreases |segs|
  {
    if |segs| == 1 {
      SplitPlain(segs[0], sep);
    } else {
      SplitJoin(segs[1..], sep);
      SplitAppend(segs[0], sep, Join(segs[1..], sep));
      assert [segs[0]] + segs[1..] == segs;
    }
  }

  /** Join of a sequence extended by one segment appends `sep` and that segment. */
  lemma {:induction false} JoinSnoc(segs: seq<string>, sep: char, last: string)
    requires |segs| > 0
    ensures Join(segs + [last], sep) == Join(segs, sep) + [sep] + last
    decreases |segs|
  {
    if |segs| > 1 {
      assert (segs + [last])[1..] == segs[1..] + [last];
      JoinSnoc(segs[1..], sep, last);
    } else {
      assert (segs + [last])[1..] == [last];
    }
  }

  /** Appending `sep + name` to a path adds exactly one segment when `name` holds no separator. */
  lemma SplitSnoc(s: string, sep: char, name: string)
    requires sep !in name
    ensures Split(s + [sep] + name, sep) == Split(s, sep) + [name]
  {
    var segs := Split(s, sep);
    JoinSnoc(segs, sep, name);
    SplitJoin(segs + [name], sep);
  }

  /** The segments of a path are replaced one by one when the pattern holds no separator. */
  lemma {:induction false} ReplaceJoin(segs: seq<string>, sep: char, pat: string, rep: string)
    requires |segs| > 0 && |pat| > 0 && sep !in pat
    ensures Replace(Join(segs, sep), pat, rep)
         == Join(seq(|segs|, i requires 0 <= i < |segs| => Replace(segs[i], pat, rep)), sep)
    decreases |segs|
  {
    var mapped := seq(|segs|, i requires 0 <= i < |segs| => Replace(segs[i], pat, rep));
    if |segs| > 1 {
      ReplaceAround(segs[0], sep, Join(segs[1..], sep), pat, rep);
      ReplaceJoin(segs[1..], sep, pat, rep);
      assert mapped[1..] == seq(|segs[1..]|, i requires 0 <= i < |segs[1..]| => Replace(segs[1..][i], pat, rep));
    }
  }

  /** Dropping a prefix of a path that a separator and a name extend. */
  lemma DropExtended(path: string, n: nat, sep: char, name: string)
    requires n <= |path|
    ensures (path + [sep] + name)[n..] == path[n..] + [sep] + name
  {
  }

  /** A string without the pattern's first character holds no occurrence of it. */
  lemma {:induction false} ReplaceNoFirst(s: string, pat: string, rep: string)
    requires |pat| > 0 && pat[0] !in s
    ensures Replace(s, pat, rep) == s
    decreases |s|
  {
    if |s| > 0 {
      assert s[0] != pat[0];
      ReplaceNoFirst(s[1..], pat, rep);
      assert [s[0]] + s[1..] == s;
    }
  }
}
