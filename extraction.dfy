/**
 * Word extraction (`get_unique_words`): the candidate words of one page,
 * taken from the text of its lines.
 */
module Extraction {
  import opened Text

  /** U+033F, written over a roman numeral; words carrying it are not candidates. */
  const RomanMark: char := '\U{033F}'

  /** One page: its whole text, and the texts of its lines, from which its words are taken. */
  datatype Page = Page(text: string, lines: seq<string>)

  predicate Distinct(s: seq<string>)
  {
    forall i, j :: 0 <= i < j < |s| ==> s[i] != s[j]
  }

  /** Every fragment of every line, in order and with repetitions: the list before de-duplication. */
  function Fragments(lines: seq<string>, clean: seq<char>): seq<string>
    decreases |lines|
  {
    if lines == [] then []
    else Fragments(lines[..|lines| - 1], clean) + Split(Strip(lines[|lines| - 1], clean))
  }

  /** `ws` lists each candidate word of the page exactly once, in some order. */
  ghost predicate UniqueWordsOf(ws: seq<string>, lines: seq<string>, clean: seq<char>)
  {
    && Distinct(ws)
    && forall w :: w in ws <==> w in Fragments(lines, clean) && RomanMark !in w
  }

  /** No fragment holds a space or a character that was to be cleaned. */
  lemma {:induction false} FragmentsAreClean(lines: seq<string>, clean: seq<char>)
    ensures forall w :: w in Fragments(lines, clean) ==> ' ' !in w && forall c :: c in clean ==> c !in w
    decreases |lines|
  {
    if lines != [] {
      var line := Strip(lines[|lines| - 1], clean);
      FragmentsAreClean(lines[..|lines| - 1], clean);
      SplitFragments(line);
      StripMembers(lines[|lines| - 1], clean);
    }
  }

  /** Every line contributes at least one fragment (the empty line contributes `""`). */
  lemma {:induction false} FragmentsCount(lines: seq<string>, clean: seq<char>)
    ensures |Fragments(lines, clean)| >= |lines|
    decreases |lines|
  {
    if lines != [] {
      FragmentsCount(lines[..|lines| - 1], clean);
    }
  }

  /** The cleaning loop: `for character in characters_to_clean: line = line.replace(character, '')`. */
  method CleanLine(line: string, clean: seq<char>) returns (r: string)
    ensures r == Strip(line, clean)
  {
    StripNothing(line);
    r := line;
    for i := 0 to |clean|
      invariant r == Strip(line, clean[..i])
    {
      ReplaceCharIsStrip(r, clean[i]);
      StripMore(line, clean[..i], clean[i]);
      assert clean[..i + 1] == clean[..i] + [clean[i]];
      r := Replace(r, [clean[i]], []);
    }
    assert clean[..|clean|] == clean;
  }

  /** The collecting loop: every fragment of every cleaned line, in order, repetitions kept. */
  method CollectFragments(lines: seq<string>, clean: seq<char>) returns (collected: seq<string>)
    ensures collected == Fragments(lines, clean)
  {
    collected := [];
    for i := 0 to |lines|
      invariant collected == Fragments(lines[..i], clean)
    {
      var lineText := CleanLine(lines[i], clean);
      assert lines[..i + 1][..i] == lines[..i];
      if ' ' in lineText {
        var parts := Split(lineText);
        for j := 0 to |parts|
          invariant collected == Fragments(lines[..i], clean) + parts[..j]
        {
          collected := collected + [parts[j]];
        }
        assert parts[..|parts|] == parts;
      } else {
        SplitNoSpace(lineText);
        collected := collected + [lineText];
      }
    }
    assert lines[..|lines|] == lines;
  }

  /** The candidate words of a page whose lines hold the texts `lines`: each word
      once, none containing a space, a cleaned character or the roman-numeral mark. */
  method GetUniqueWords(lines: seq<string>, clean: seq<char>) returns (words: seq<string>)
    ensures UniqueWordsOf(words, lines, clean)
    ensures forall w :: w in words ==> ' ' !in w && RomanMark !in w && forall c :: c in clean ==> c !in w
  {
    var collected := CollectFragments(lines, clean);

    // de-duplicate (the source goes through a set, so its order is arbitrary)
    var unique: seq<string> := [];
    for k := 0 to |collected|
      invariant Distinct(unique)
      invariant forall w :: w in unique <==> w in collected[..k]
    {
      assert collected[..k + 1] == collected[..k] + [collected[k]];
      if collected[k] !in unique {
        unique := unique + [collected[k]];
      }
    }
    assert collected[..|collected|] == collected;

    // keep only the words without the roman-numeral mark
    words := [];
    for k := 0 to |unique|
      invariant Distinct(words)
      invariant forall w :: w in words <==> w in unique[..k] && RomanMark !in w
    {
      assert unique[..k + 1] == unique[..k] + [unique[k]];
      assert unique[k] !in unique[..k];
      if RomanMark !in unique[k] {
        words := words + [unique[k]];
      }
    }
    assert unique[..|unique|] == unique;
    FragmentsAreClean(lines, clean);
  }
}
