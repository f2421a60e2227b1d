/**
 * Abbreviation expansion (`expand_pagexml`): every candidate word holding a
 * special character is resolved (domain dictionary, then general dictionary,
 * then the expansion rules), substituted into the page text, and recorded in
 * the abbreviation log, which is kept across all pages of a run.
 */
module Expansion {
  import opened Text
  import opened Config
  import opened Extraction
  import opened Substitution

  /** The word is written in abbreviated form: it holds one of the special characters. */
  predicate IsAbbreviation(word: string, special: seq<char>)
  {
    exists ch :: ch in word && ch in special
  }

  /** The expansion of an abbreviation, by dictionary or by rule. */
  function Resolve(word: string, domain: map<string, string>, general: map<string, string>,
                   rules: seq<(string, string)>): string
  {
    if word in domain then domain[word]
    else if word in general then general[word]
    else ReplaceEach(word, rules)
  }

  /** The three tiers of resolution, and the rule tier's identity when no rule pattern occurs in the word. */
  lemma ResolutionOrder(word: string, domain: map<string, string>, general: map<string, string>,
                        rules: seq<(string, string)>)
    ensures word in domain ==> Resolve(word, domain, general, rules) == domain[word]
    ensures word !in domain && word in general ==> Resolve(word, domain, general, rules) == general[word]
    ensures word !in domain && word !in general ==> Resolve(word, domain, general, rules) == ReplaceEach(word, rules)
    ensures word !in domain && word !in general
         && (forall k :: 0 <= k < |rules| ==> rules[k].0 != [] && !Occurs(rules[k].0, word))
         ==> Resolve(word, domain, general, rules) == word
  {
    if word !in domain && word !in general
       && (forall k :: 0 <= k < |rules| ==> rules[k].0 != [] && !Occurs(rules[k].0, word)) {
      ReplaceEachAbsent(word, rules);
    }
  }

  /** The resolution of one word, the rule tier by the source's loop over the rules. */
  method ResolveAbbreviation(word: string, domain: map<string, string>, general: map<string, string>,
                             rules: seq<(string, string)>) returns (expansion: string)
    ensures expansion == Resolve(word, domain, general, rules)
  {
    if word in domain {
      expansion := domain[word];
    } else if word in general {
      expansion := general[word];
    } else {
      expansion := ReplaceInOrder(word, rules);
    }
  }

  /** The page text once the words have been handled in the given order. */
  function ExpandedText(text: string, words: seq<string>, domain: map<string, string>,
                        general: map<string, string>, cfg: Tables): string
    decreases |words|
  {
    if words == [] then text
    else
      var w := words[0];
      var t := if IsAbbreviation(w, cfg.special)
               then Substituted(text, w, Resolve(w, domain, general, cfg.expansionRules), cfg.clean)
               else text;
      ExpandedText(t, words[1..], domain, general, cfg)
  }

  /** What handling `words` records in the abbreviation log. */
  function Resolutions(words: seq<string>, domain: map<string, string>, general: map<string, string>,
                       cfg: Tables): map<string, string>
  {
    map w | w in words && IsAbbreviation(w, cfg.special) :: Resolve(w, domain, general, cfg.expansionRules)
  }

  /** One more word adds its resolution, when it is an abbreviation, and nothing otherwise. */
  lemma ResolutionsSnoc(words: seq<string>, w: string, domain: map<string, string>,
                        general: map<string, string>, cfg: Tables)
    ensures IsAbbreviation(w, cfg.special) ==>
              Resolutions(words + [w], domain, general, cfg)
              == Resolutions(words, domain, general, cfg)[w := Resolve(w, domain, general, cfg.expansionRules)]
    ensures !IsAbbreviation(w, cfg.special) ==>
              Resolutions(words + [w], domain, general, cfg) == Resolutions(words, domain, general, cfg)
  {
    assert forall v :: v in words + [w] <==> v in words || v == w;
  }

  /** Handling word `i` adds its resolution to the log, when it is an abbreviation. */
  lemma LogStep(log: map<string, string>, words: seq<string>, i: nat, domain: map<string, string>,
                general: map<string, string>, cfg: Tables)
    requires i < |words|
    ensures IsAbbreviation(words[i], cfg.special) ==>
              log + Resolutions(words[..i + 1], domain, general, cfg)
              == (log + Resolutions(words[..i], domain, general, cfg))[words[i] := Resolve(words[i], domain, general, cfg.expansionRules)]
    ensures !IsAbbreviation(words[i], cfg.special) ==>
              log + Resolutions(words[..i + 1], domain, general, cfg) == log + Resolutions(words[..i], domain, general, cfg)
  {
    assert words[..i + 1] == words[..i] + [words[i]];
    ResolutionsSnoc(words[..i], words[i], domain, general, cfg);
  }

  lemma ExpandedTextStep(text: string, words: seq<string>, i: nat, domain: map<string, string>,
                         general: map<string, string>, cfg: Tables)
    requires i < |words|
    ensures ExpandedText(text, words[i..], domain, general, cfg)
         == ExpandedText(if IsAbbreviation(words[i], cfg.special)
                         then Substituted(text, words[i], Resolve(words[i], domain, general, cfg.expansionRules), cfg.clean)
                         else text, words[i + 1..], domain, general, cfg)
  {
    assert words[i..][0] == words[i] && words[i..][1..] == words[i + 1..];
  }

  /** The per-word loop of one page: the new page text, and the log with this page's resolutions added. */
  method ExpandPage(text: string, words: seq<string>, domain: map<string, string>,
                    general: map<string, string>, cfg: Tables, log: map<string, string>)
    returns (newText: string, newLog: map<string, string>)
    ensures newText == ExpandedText(text, words, domain, general, cfg)
    ensures newLog == log + Resolutions(words, domain, general, cfg)
  {
    newText, newLog := text, log;
    for i := 0 to |words|
      invariant ExpandedText(newText, words[i..], domain, general, cfg) == ExpandedText(text, words, domain, general, cfg)
      invariant newLog == log + Resolutions(words[..i], domain, general, cfg)
    {
      var word := words[i];
      ExpandedTextStep(newText, words, i, domain, general, cfg);
      LogStep(log, words, i, domain, general, cfg);
      if IsAbbreviation(word, cfg.special) {
        var expansion := ResolveAbbreviation(word, domain, general, cfg.expansionRules);
        newText := Substitute(newText, word, expansion, cfg.clean);
        newLog := newLog[word := expansion];
      }
    }
    assert words[|words|..] == [] && words[..|words|] == words;
  }

  /** A word without a special character changes neither the text nor the log. */
  lemma PlainWordIgnored(text: string, word: string, rest: seq<string>, domain: map<string, string>,
                         general: map<string, string>, cfg: Tables)
    requires !IsAbbreviation(word, cfg.special)
    ensures ExpandedText(text, [word] + rest, domain, general, cfg) == ExpandedText(text, rest, domain, general, cfg)
    ensures Resolutions([word] + rest, domain, general, cfg) == Resolutions(rest, domain, general, cfg)
  {
    assert ([word] + rest)[1..] == rest;
  }

  /** If every abbreviation on the page and its expansion are free of `<` and `>`, the
      expansion pass keeps the page's number of `<` and of `>`. */
  lemma {:induction false} ExpansionKeepsMarkup(text: string, words: seq<string>, domain: map<string, string>,
                                                general: map<string, string>, cfg: Tables)
    requires forall w :: w in words && IsAbbreviation(w, cfg.special) ==>
               MarkupFree(w) && MarkupFree(Resolve(w, domain, general, cfg.expansionRules))
    ensures multiset(ExpandedText(text, words, domain, general, cfg))['<'] == multiset(text)['<']
    ensures multiset(ExpandedText(text, words, domain, general, cfg))['>'] == multiset(text)['>']
    decreases |words|
  {
    if words != [] {
      var w := words[0];
      if IsAbbreviation(w, cfg.special) {
        SubstituteKeepsMarkup(text, w, Resolve(w, domain, general, cfg.expansionRules), cfg.clean);
      }
      var t := if IsAbbreviation(w, cfg.special)
               then Substituted(text, w, Resolve(w, domain, general, cfg.expansionRules), cfg.clean)
               else text;
      ExpansionKeepsMarkup(t, words[1..], domain, general, cfg);
    }
  }

  /** The whole expansion run over a sequence of pages: one output text per page, each the
      page's text after the expansion pass over the listing of its candidate words returned
      in `wordLists`, and a log that maps exactly the abbreviations met on any page to their
      expansions. */
  method ExpandRun(pages: seq<Page>, domain: map<string, string>, general: map<string, string>, cfg: Tables)
    returns (outputs: seq<string>, log: map<string, string>, wordLists: seq<seq<string>>)
    ensures |outputs| == |pages| && |wordLists| == |pages|
    ensures forall p :: 0 <= p < |pages| ==>
              && UniqueWordsOf(wordLists[p], pages[p].lines, cfg.clean)
              && outputs[p] == ExpandedText(pages[p].text, wordLists[p], domain, general, cfg)
    ensures forall w :: w in log <==>
              && IsAbbreviation(w, cfg.special) && RomanMark !in w
              && exists p :: 0 <= p < |pages| && w in Fragments(pages[p].lines, cfg.clean)
    ensures forall w :: w in log ==> log[w] == Resolve(w, domain, general, cfg.expansionRules)
  {
    outputs, log, wordLists := [], map[], [];
    for i := 0 to |pages|
      invariant |outputs| == i && |wordLists| == i
      invariant forall p :: 0 <= p < i ==>
                  && UniqueWordsOf(wordLists[p], pages[p].lines, cfg.clean)
                  && outputs[p] == ExpandedText(pages[p].text, wordLists[p], domain, general, cfg)
      invariant forall w :: w in log <==>
                  && IsAbbreviation(w, cfg.special) && RomanMark !in w
                  && exists p :: 0 <= p < i && w in Fragments(pages[p].lines, cfg.clean)
      invariant forall w :: w in log ==> log[w] == Resolve(w, domain, general, cfg.expansionRules)
    {
      var words := GetUniqueWords(pages[i].lines, cfg.clean);
      var text;
      text, log := ExpandPage(pages[i].text, words, domain, general, cfg, log);
      outputs := outputs + [text];
      wordLists := wordLists + [words];
    }
  }
}
