/**
 * The contextual substitution both page passes share: the word is replaced
 * only where a frame surrounds it: before it a space, `>` or a cleaned
 * character, after it a space, `<` or a cleaned character, in the pairs
 * `Frames` lists. The same frame is put back around the replacement. It is
 * a fixed sequence of `str.replace` calls on the whole page text.
 */
module Substitution {
  import opened Text

  /** The delimiter written before the word and the one written after it. */
  type Frame = (string, string)

  /** The four frames tried for one cleaned character `c`, in the order of the source. */
  function CharFrames(c: char): seq<Frame>
  {
    [(" ", [c]), (">", [c]), ([c], " "), ([c], "<")]
  }

  function CleanFrames(clean: seq<char>): seq<Frame>
    decreases |clean|
  {
    if clean == [] then [] else CleanFrames(clean[..|clean| - 1]) + CharFrames(clean[|clean| - 1])
  }

  /** The three frames tried after all cleaned characters. */
  const SpaceFrames: seq<Frame> := [(" ", " "), (" ", "<"), (">", " ")]

  /** Every frame, in the order the replacements happen. */
  function Frames(clean: seq<char>): seq<Frame>
  {
    CleanFrames(clean) + SpaceFrames
  }

  /** The (pattern, replacement) table: each frame around the word, the same frame around its replacement. */
  function Framed(frames: seq<Frame>, word: string, rep: string): seq<(string, string)>
  {
    seq(|frames|, k requires 0 <= k < |frames| => (frames[k].0 + word + frames[k].1, frames[k].0 + rep + frames[k].1))
  }

  /** The page text after `word` has been replaced by `rep` in every frame. */
  function Substituted(text: string, word: string, rep: string, clean: seq<char>): string
  {
    ReplaceEach(text, Framed(Frames(clean), word, rep))
  }

  lemma FramedConcat(a: seq<Frame>, b: seq<Frame>, word: string, rep: string)
    ensures Framed(a + b, word, rep) == Framed(a, word, rep) + Framed(b, word, rep)
  {
  }

  /** Four replaces in a row are the four-entry table. */
  lemma ReplaceFour(s: string, t: seq<(string, string)>)
    requires |t| == 4
    ensures ReplaceEach(s, t)
         == Replace(Replace(Replace(Replace(s, t[0].0, t[0].1), t[1].0, t[1].1), t[2].0, t[2].1), t[3].0, t[3].1)
  {
    var s1 := Replace(s, t[0].0, t[0].1);
    var s2 := Replace(s1, t[1].0, t[1].1);
    var s3 := Replace(s2, t[2].0, t[2].1);
    assert ReplaceEach(s, t) == ReplaceEach(s1, t[1..]);
    assert ReplaceEach(s1, t[1..]) == ReplaceEach(s2, t[2..]) by { assert t[1..][1..] == t[2..]; }
    assert ReplaceEach(s2, t[2..]) == ReplaceEach(s3, t[3..]) by { assert t[2..][1..] == t[3..]; }
    assert ReplaceEach(s3, t[3..]) == Replace(s3, t[3].0, t[3].1) by { assert t[3..][1..] == []; }
  }

  lemma ReplaceThree(s: string, t: seq<(string, string)>)
    requires |t| == 3
    ensures ReplaceEach(s, t) == Replace(Replace(Replace(s, t[0].0, t[0].1), t[1].0, t[1].1), t[2].0, t[2].1)
  {
    var s1 := Replace(s, t[0].0, t[0].1);
    var s2 := Replace(s1, t[1].0, t[1].1);
    assert ReplaceEach(s, t) == ReplaceEach(s1, t[1..]);
    assert ReplaceEach(s1, t[1..]) == ReplaceEach(s2, t[2..]) by { assert t[1..][1..] == t[2..]; }
    assert ReplaceEach(s2, t[2..]) == Replace(s2, t[2].0, t[2].1) by { assert t[2..][1..] == []; }
  }

  /** The substitution loop of both page passes, replace call by replace call. */
  method Substitute(text: string, word: string, rep: string, clean: seq<char>) returns (r: string)
    ensures r == Substituted(text, word, rep, clean)
  {
    r := text;
    for i := 0 to |clean|
      invariant r == ReplaceEach(text, Framed(CleanFrames(clean[..i]), word, rep))
    {
      var c := clean[i];
      ghost var before := r;
      r := Replace(r, " " + word + [c], " " + rep + [c]);
      r := Replace(r, ">" + word + [c], ">" + rep + [c]);
      r := Replace(r, [c] + word + " ", [c] + rep + " ");
      r := Replace(r, [c] + word + "<", [c] + rep + "<");
      ReplaceFour(before, Framed(CharFrames(c), word, rep));
      assert clean[..i + 1][..i] == clean[..i];
      FramedConcat(CleanFrames(clean[..i]), CharFrames(c), word, rep);
      ReplaceEachConcat(text, Framed(CleanFrames(clean[..i]), word, rep), Framed(CharFrames(c), word, rep));
    }
    assert clean[..|clean|] == clean;
    ghost var before := r;
    r := Replace(r, " " + word + " ", " " + rep + " ");
    r := Replace(r, " " + word + "<", " " + rep + "<");
    r := Replace(r, ">" + word + " ", ">" + rep + " ");
    ReplaceThree(before, Framed(SpaceFrames, word, rep));
    FramedConcat(CleanFrames(clean), SpaceFrames, word, rep);
    ReplaceEachConcat(text, Framed(CleanFrames(clean), word, rep), Framed(SpaceFrames, word, rep));
  }

  lemma {:induction false} CleanFramesDelimiters(clean: seq<char>)
    ensures forall f :: f in CleanFrames(clean) ==> |f.0| == 1 && |f.1| == 1
    decreases |clean|
  {
    if clean != [] {
      CleanFramesDelimiters(clean[..|clean| - 1]);
    }
  }

  /** Replacing a word by itself leaves the page as it is. */
  lemma SubstituteSameWord(text: string, word: string, clean: seq<char>)
    ensures Substituted(text, word, word, clean) == text
  {
    ReplaceEachSame(text, Framed(Frames(clean), word, word));
  }

  /** A word that occurs in no frame leaves the page as it is, whatever its replacement. */
  lemma SubstituteUnframed(text: string, word: string, rep: string, clean: seq<char>)
    requires forall f :: f in Frames(clean) ==> !Occurs(f.0 + word + f.1, text)
    ensures Substituted(text, word, rep, clean) == text
  {
    var fs := Frames(clean);
    var table := Framed(fs, word, rep);
    CleanFramesDelimiters(clean);
    forall k | 0 <= k < |table|
      ensures table[k].0 != [] && !Occurs(table[k].0, text)
    {
      assert fs[k] in fs;
    }
    ReplaceEachAbsent(text, table);
  }

  /** A character that word and replacement hold equally often occurs in the page as often as before. */
  lemma SubstituteKeepsCount(text: string, word: string, rep: string, clean: seq<char>, ch: char)
    requires multiset(word)[ch] == multiset(rep)[ch]
    ensures multiset(Substituted(text, word, rep, clean))[ch] == multiset(text)[ch]
  {
    var fs := Frames(clean);
    var table := Framed(fs, word, rep);
    forall k | 0 <= k < |table|
      ensures multiset(table[k].0)[ch] == multiset(table[k].1)[ch]
    {
    }
    ReplaceEachKeepsCount(text, table, ch);
  }

  /** The text holds neither markup bracket, `<` nor `>`. */
  predicate MarkupFree(s: string)
  {
    '<' !in s && '>' !in s
  }

  lemma PrefixMarkupFree(r: string, s: string)
    requires r <= s && MarkupFree(s)
    ensures MarkupFree(r)
  {
    assert r == s[..|r|];
  }

  lemma ReplaceMarkupFree(s: string, pat: string, rep: string)
    requires MarkupFree(s) && MarkupFree(pat) && MarkupFree(rep)
    ensures MarkupFree(Replace(s, pat, rep))
  {
    ReplaceKeepsCount(s, pat, rep, '<');
    ReplaceKeepsCount(s, pat, rep, '>');
  }

  lemma {:induction false} ReplaceEachMarkupFree(s: string, table: seq<(string, string)>)
    requires MarkupFree(s)
    requires forall k :: 0 <= k < |table| ==> MarkupFree(table[k].0) && MarkupFree(table[k].1)
    ensures MarkupFree(ReplaceEach(s, table))
    decreases |table|
  {
    if table != [] {
      ReplaceMarkupFree(s, table[0].0, table[0].1);
      ReplaceEachMarkupFree(Replace(s, table[0].0, table[0].1), table[1..]);
    }
  }

  /** When neither the word nor its replacement holds `<` or `>`, the page keeps its number of
      `<` and of `>`: the markup brackets are neither created nor destroyed. */
  lemma SubstituteKeepsMarkup(text: string, word: string, rep: string, clean: seq<char>)
    requires MarkupFree(word) && MarkupFree(rep)
    ensures multiset(Substituted(text, word, rep, clean))['<'] == multiset(text)['<']
    ensures multiset(Substituted(text, word, rep, clean))['>'] == multiset(text)['>']
  {
    SubstituteKeepsCount(text, word, rep, clean, '<');
    SubstituteKeepsCount(text, word, rep, clean, '>');
  }
}
