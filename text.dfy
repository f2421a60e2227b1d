/**
 * The Python `str` operations the normaliser is built from, written out on
 * `seq<char>`: `replace`, `split(" ")`, slicing from the end, `endswith`,
 * the ASCII part of `lower`/`isupper`/`capitalize`, and the repeated
 * `replace` over an ordered table of (pattern, replacement) pairs.
 */
module Text {

  /** `p in s` on strings: `p` is a contiguous block of `s`. */
  predicate Occurs(p: string, s: string)
    decreases |s|
  {
    p <= s || (s != [] && Occurs(p, s[1..]))
  }

  // ---------------------------------------------------------------------------
  // str.replace
  // ---------------------------------------------------------------------------

  /** `s.replace("", rep)`: `rep` before every character and once more at the end. */
  function InsertEverywhere(s: string, rep: string): string
    decreases |s|
  {
    if s == [] then rep else rep + [s[0]] + InsertEverywhere(s[1..], rep)
  }

  /** `s.replace(pat, rep)`: every leftmost, non-overlapping occurrence of `pat`, scanning left to right. */
  function Replace(s: string, pat: string, rep: string): string
    decreases |s|
  {
    if pat == [] then InsertEverywhere(s, rep)
    else if s == [] then []
    else if pat <= s then rep + Replace(s[|pat|..], pat, rep)
    else [s[0]] + Replace(s[1..], pat, rep)
  }

  lemma {:induction false} ReplaceAbsent(s: string, pat: string, rep: string)
    requires pat != [] && !Occurs(pat, s)
    ensures Replace(s, pat, rep) == s
    decreases |s|
  {
    if s != [] {
      ReplaceAbsent(s[1..], pat, rep);
    }
  }

  lemma {:induction false} InsertNothing(s: string)
    ensures InsertEverywhere(s, []) == s
    decreases |s|
  {
    if s != [] {
      InsertNothing(s[1..]);
    }
  }

  /** Replacing a pattern by itself changes nothing, the empty pattern included. */
  lemma {:induction false} ReplaceSame(s: string, pat: string)
    ensures Replace(s, pat, pat) == s
    decreases |s|
  {
    if pat == [] {
      InsertNothing(s);
    } else if s == [] {
    } else if pat <= s {
      ReplaceSame(s[|pat|..], pat);
      assert s == pat + s[|pat|..];
    } else {
      ReplaceSame(s[1..], pat);
    }
  }

  lemma {:induction false} InsertEverywhereCount(s: string, rep: string, ch: char)
    requires multiset(rep)[ch] == 0
    ensures multiset(InsertEverywhere(s, rep))[ch] == multiset(s)[ch]
    decreases |s|
  {
    if s != [] {
      InsertEverywhereCount(s[1..], rep, ch);
      assert s == [s[0]] + s[1..];
    }
  }

  /** When pattern and replacement hold `ch` equally often, so do the text before and after. */
  lemma {:induction false} ReplaceKeepsCount(s: string, pat: string, rep: string, ch: char)
    requires multiset(pat)[ch] == multiset(rep)[ch]
    ensures multiset(Replace(s, pat, rep))[ch] == multiset(s)[ch]
    decreases |s|
  {
    if pat == [] {
      InsertEverywhereCount(s, rep, ch);
    } else if s == [] {
    } else if pat <= s {
      ReplaceKeepsCount(s[|pat|..], pat, rep, ch);
      assert s == pat + s[|pat|..];
    } else {
      ReplaceKeepsCount(s[1..], pat, rep, ch);
      assert s == [s[0]] + s[1..];
    }
  }

  lemma {:induction false} ReplaceLength(s: string, pat: string, rep: string)
    requires pat != []
    ensures |rep| >= |pat| ==> |Replace(s, pat, rep)| >= |s|
    ensures |rep| <= |pat| ==> |Replace(s, pat, rep)| <= |s|
    decreases |s|
  {
    if s == [] {
    } else if pat <= s {
      ReplaceLength(s[|pat|..], pat, rep);
    } else {
      ReplaceLength(s[1..], pat, rep);
    }
  }

  lemma {:induction false} ReplaceChanges(s: string, pat: string, rep: string)
    requires pat != [] && pat != rep && Occurs(pat, s)
    ensures Replace(s, pat, rep) != s
    decreases |s|
  {
    var r := Replace(s, pat, rep);
    if pat <= s {
      ReplaceLength(s[|pat|..], pat, rep);
      if |rep| == |pat| {
        assert r[..|rep|] == rep;
        assert s[..|pat|] == pat;
      }
    } else {
      ReplaceChanges(s[1..], pat, rep);
      assert r[1..] == Replace(s[1..], pat, rep);
    }
  }

  /** For a non-empty pattern, `replace` leaves the text as it was exactly when the
      replacement is the pattern itself or the pattern does not occur. */
  lemma ReplaceUnchangedIff(s: string, pat: string, rep: string)
    requires pat != []
    ensures Replace(s, pat, rep) == s <==> pat == rep || !Occurs(pat, s)
  {
    if pat == rep {
      ReplaceSame(s, pat);
    } else if Occurs(pat, s) {
      ReplaceChanges(s, pat, rep);
    } else {
      ReplaceAbsent(s, pat, rep);
    }
  }

  // ---------------------------------------------------------------------------
  // An ordered replacement table: `for old, new in table: s = s.replace(old, new)`
  // ---------------------------------------------------------------------------

  function ReplaceEach(s: string, table: seq<(string, string)>): string
    decreases |table|
  {
    if table == [] then s else ReplaceEach(Replace(s, table[0].0, table[0].1), table[1..])
  }

  method ReplaceInOrder(s: string, table: seq<(string, string)>) returns (r: string)
    ensures r == ReplaceEach(s, table)
  {
    r := s;
    for i := 0 to |table|
      invariant ReplaceEach(r, table[i..]) == ReplaceEach(s, table)
    {
      assert table[i..][1..] == table[i + 1..];
      r := Replace(r, table[i].0, table[i].1);
    }
    assert table[|table|..] == [];
  }

  lemma {:induction false} ReplaceEachConcat(s: string, a: seq<(string, string)>, b: seq<(string, string)>)
    ensures ReplaceEach(s, a + b) == ReplaceEach(ReplaceEach(s, a), b)
    decreases |a|
  {
    if a == [] {
      assert a + b == b;
    } else {
      assert (a + b)[0] == a[0];
      assert (a + b)[1..] == a[1..] + b;
      ReplaceEachConcat(Replace(s, a[0].0, a[0].1), a[1..], b);
    }
  }

  /** A table none of whose non-empty patterns occurs in `s` leaves `s` as it is. */
  lemma {:induction false} ReplaceEachAbsent(s: string, table: seq<(string, string)>)
    requires forall k :: 0 <= k < |table| ==> table[k].0 != [] && !Occurs(table[k].0, s)
    ensures ReplaceEach(s, table) == s
    decreases |table|
  {
    if table != [] {
      ReplaceAbsent(s, table[0].0, table[0].1);
      ReplaceEachAbsent(s, table[1..]);
    }
  }

  /** A table whose every entry maps a pattern to itself leaves every text as it is. */
  lemma {:induction false} ReplaceEachSame(s: string, table: seq<(string, string)>)
    requires forall k :: 0 <= k < |table| ==> table[k].0 == table[k].1
    ensures ReplaceEach(s, table) == s
    decreases |table|
  {
    if table != [] {
      ReplaceSame(s, table[0].0);
      ReplaceEachSame(s, table[1..]);
    }
  }

  lemma {:induction false} ReplaceEachKeepsCount(s: string, table: seq<(string, string)>, ch: char)
    requires forall k :: 0 <= k < |table| ==> multiset(table[k].0)[ch] == multiset(table[k].1)[ch]
    ensures multiset(ReplaceEach(s, table))[ch] == multiset(s)[ch]
    decreases |table|
  {
    if table != [] {
      ReplaceKeepsCount(s, table[0].0, table[0].1, ch);
      ReplaceEachKeepsCount(Replace(s, table[0].0, table[0].1), table[1..], ch);
    }
  }

  // ---------------------------------------------------------------------------
  // str.split(" ") and its inverse " ".join
  // ---------------------------------------------------------------------------

  /** `s.split(" ")`: the fragments between single spaces, empty ones included. */
  function Split(s: string): (parts: seq<string>)
    ensures |parts| >= 1
    decreases |s|
  {
    if s == [] then [[]]
    else
      var rest := Split(s[1..]);
      if s[0] == ' ' then [[]] + rest
      else [[s[0]] + rest[0]] + rest[1..]
  }

  /** `" ".join(parts)`. */
  function Join(parts: seq<string>): string
    decreases |parts|
  {
    if parts == [] then []
    else if |parts| == 1 then parts[0]
    else parts[0] + " " + Join(parts[1..])
  }

  lemma {:induction false} JoinSplit(s: string)
    ensures Join(Split(s)) == s
    decreases |s|
  {
    if s != [] {
      JoinSplit(s[1..]);
      var rest := Split(s[1..]);
      assert s == [s[0]] + s[1..];
      if s[0] == ' ' {
        var parts := [[]] + rest;
        assert parts[0] == [] && parts[1..] == rest;
      } else if |rest| == 1 {
        assert Join(rest) == rest[0];
      } else {
        var parts := [[s[0]] + rest[0]] + rest[1..];
        assert Join(rest) == rest[0] + " " + Join(rest[1..]);
        assert parts[1..] == rest[1..];
      }
    }
  }

  lemma {:induction false} SplitFragments(s: string)
    ensures forall f :: f in Split(s) ==> ' ' !in f && forall ch :: ch in f ==> ch in s
    decreases |s|
  {
    if s != [] {
      SplitFragments(s[1..]);
    }
  }

  lemma {:induction false} SplitNoSpace(s: string)
    requires ' ' !in s
    ensures Split(s) == [s]
    decreases |s|
  {
    if s != [] {
      assert s == [s[0]] + s[1..];
      SplitNoSpace(s[1..]);
    }
  }

  lemma {:induction false} SplitJoinFront(a: string, b: string)
    requires ' ' !in a
    ensures Split(a + " " + b) == [a] + Split(b)
    decreases |a|
  {
    if a == [] {
      assert (" " + b)[1..] == b;
    } else {
      SplitJoinFront(a[1..], b);
      assert (a + " " + b)[0] == a[0];
      assert (a + " " + b)[1..] == a[1..] + " " + b;
      assert [a[0]] + a[1..] == a;
    }
  }

  /** Splitting joined space-free fragments gives them back. */
  lemma {:induction false} SplitJoin(parts: seq<string>)
    requires parts != []
    requires forall f :: f in parts ==> ' ' !in f
    ensures Split(Join(parts)) == parts
    decreases |parts|
  {
    if |parts| == 1 {
      SplitNoSpace(parts[0]);
    } else {
      SplitJoin(parts[1..]);
      SplitJoinFront(parts[0], Join(parts[1..]));
    }
  }

  // ---------------------------------------------------------------------------
  // Removing characters: `for c in cs: s = s.replace(c, "")`
  // ---------------------------------------------------------------------------

  /** `s` without any character of `cs`. */
  function Strip(s: string, cs: seq<char>): string
    decreases |s|
  {
    if s == [] then [] else (if s[0] in cs then [] else [s[0]]) + Strip(s[1..], cs)
  }

  lemma {:induction false} StripMembers(s: string, cs: seq<char>)
    ensures forall ch :: ch in Strip(s, cs) <==> ch in s && ch !in cs
    decreases |s|
  {
    if s != [] {
      StripMembers(s[1..], cs);
      assert s == [s[0]] + s[1..];
    }
  }

  lemma {:induction false} StripNothing(s: string)
    ensures Strip(s, []) == s
    decreases |s|
  {
    if s != [] {
      StripNothing(s[1..]);
    }
  }

  lemma {:induction false} ReplaceCharIsStrip(s: string, c: char)
    ensures Replace(s, [c], []) == Strip(s, [c])
    decreases |s|
  {
    if s != [] {
      ReplaceCharIsStrip(s[1..], c);
    }
  }

  lemma {:induction false} StripMore(s: string, cs: seq<char>, c: char)
    ensures Strip(Strip(s, cs), [c]) == Strip(s, cs + [c])
    decreases |s|
  {
    if s != [] {
      StripMore(s[1..], cs, c);
      assert s[0] in cs + [c] <==> s[0] in cs || s[0] == c;
      if s[0] !in cs {
        var t := [s[0]] + Strip(s[1..], cs);
        assert t[0] == s[0] && t[1..] == Strip(s[1..], cs);
        assert Strip(t, [c]) == (if s[0] == c then [] else [s[0]]) + Strip(Strip(s[1..], cs), [c]);
      } else {
        assert Strip(s, cs) == Strip(s[1..], cs);
        assert Strip(s, cs + [c]) == Strip(s[1..], cs + [c]);
      }
    }
  }

  // ---------------------------------------------------------------------------
  // Slicing from the end and suffix tests
  // ---------------------------------------------------------------------------

  /** `s[:-n]`: the last `n` characters dropped; `""` when `s` is not longer than `n`, and,
      as Python's `s[:-0]` is `s[:0]`, also when `n` is 0. */
  function DropLast(s: string, n: nat): (r: string)
    ensures r <= s
    ensures |r| == if n == 0 || |s| <= n then 0 else |s| - n
  {
    if n == 0 || |s| <= n then [] else s[..|s| - n]
  }

  /** `s.endswith(suffix)`. */
  predicate EndsWith(s: string, suffix: string)
  {
    |suffix| <= |s| && s[|s| - |suffix|..] == suffix
  }

  /** A suffix of `b` is a suffix of anything that ends with `b`. */
  lemma EndsWithConcat(a: string, b: string, suffix: string)
    requires EndsWith(b, suffix)
    ensures EndsWith(a + b, suffix)
  {
    assert (a + b)[|a + b| - |suffix|..] == b[|b| - |suffix|..];
  }

  /** `s[-1:]`: the last character, or `""` for the empty string. */
  function Last(s: string): string
  {
    if s == [] then [] else [s[|s| - 1]]
  }

  // ---------------------------------------------------------------------------
  // Letter case, ASCII letters only
  // ---------------------------------------------------------------------------

  /** `c.isupper()` for one character. */
  predicate IsUpper(c: char)
  {
    'A' <= c <= 'Z'
  }

  predicate IsLower(c: char)
  {
    'a' <= c <= 'z'
  }

  function ToLower(c: char): (r: char)
    ensures IsUpper(c) ==> IsLower(r) && r as int - 'a' as int == c as int - 'A' as int
    ensures !IsUpper(c) ==> r == c
  {
    if IsUpper(c) then (c as int + 32) as char else c
  }

  function ToUpper(c: char): (r: char)
    ensures IsLower(c) ==> IsUpper(r) && r as int - 'A' as int == c as int - 'a' as int
    ensures !IsLower(c) ==> r == c
  {
    if IsLower(c) then (c as int - 32) as char else c
  }

  /** Lower-casing and upper-casing undo each other on letters. */
  lemma CaseRoundTrip(c: char)
    ensures IsUpper(c) ==> ToUpper(ToLower(c)) == c
    ensures IsLower(c) ==> ToLower(ToUpper(c)) == c
  {
  }

  /** `s.lower()`. */
  function Lower(s: string): (r: string)
  {
    seq(|s|, i requires 0 <= i < |s| => ToLower(s[i]))
  }

  /** `s.capitalize()`: first character upper-cased, all others lower-cased. */
  function Capitalize(s: string): (r: string)
  {
    if s == [] then [] else [ToUpper(s[0])] + Lower(s[1..])
  }

  lemma LowerKeeps(s: string, ch: char)
    requires !IsUpper(ch) && !IsLower(ch)
    ensures ch in Lower(s) <==> ch in s
  {
    var t := Lower(s);
    if ch in s {
      var i :| 0 <= i < |s| && s[i] == ch;
      assert t[i] == ch;
    }
    if ch in t {
      var i :| 0 <= i < |t| && t[i] == ch;
      assert s[i] == ch;
    }
  }

  /** Case changes never touch a character that is not an ASCII letter. */
  lemma CapitalizeKeeps(s: string, ch: char)
    requires !IsUpper(ch) && !IsLower(ch)
    ensures ch in Capitalize(s) <==> ch in s
  {
    if s != [] {
      LowerKeeps(s[1..], ch);
      assert s == [s[0]] + s[1..];
    }
  }
}
