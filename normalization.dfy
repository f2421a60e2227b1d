/**
 * Morphological normalisation (`normalize_pagexml`): each candidate word is
 * looked up in the lexicon; unless the row is a stopword or inconsistent, a
 * root is cut from its superlemma and from its lemma according to the word
 * class, and the lemma root inside the word is replaced by the superlemma root.
 */
module Normalization {
  import opened Wrappers
  import opened Text
  import opened Config
  import opened Extraction
  import opened Substitution
  import opened Lexicon

  /** The coarse word class named by the superlemma's tag. */
  datatype WordClass = Verb | Adverb | Pronoun | Other

  datatype SkipReason = NotInLexicon | Stopword | Inconsistent

  /** Where the source raises an exception: a superlemma with no `@` (no tag to index), and an
      empty word whose first character is asked for. */
  datatype Fault = UntaggedSuperlemma | EmptyWord

  /** What handling one word comes to: no substitution at all, a substitution, or an exception. */
  datatype Outcome = Skipped(reason: SkipReason) | Normalised(word: string) | Crashed(fault: Fault)

  datatype RootPair = RootPair(superlemmaRoot: string, lemmaRoot: string)

  /** Superlemmas never normalised. */
  const Stopwords: set<string> := {"alea@NN", "a@AP", "hilla@NN"}

  /** The endings tried, in this order, on a superlemma of any other class. */
  const Endings: seq<string> := ["um", "us", "u", "e", "os", "a", "us", "is", "es", "as"]

  // ---------------------------------------------------------------------------
  // The superlemma's two parts
  // ---------------------------------------------------------------------------

  /** `superlemma.split("@")[0]`: everything before the first `@`. */
  function Untagged(superlemma: string): (r: string)
    ensures r <= superlemma && '@' !in r
    ensures |r| < |superlemma| <==> '@' in superlemma
    decreases |superlemma|
  {
    if superlemma == [] || superlemma[0] == '@' then []
    else [superlemma[0]] + Untagged(superlemma[1..])
  }

  /** `superlemma.split("@")[1]`: what lies between the first `@` and the next one; `None`
      when there is no `@` at all, where the source's index raises. */
  function Tag(superlemma: string): (r: Option<string>)
    ensures r.Some? <==> '@' in superlemma
    decreases |superlemma|
  {
    if superlemma == [] then None
    else if superlemma[0] == '@' then Some(Untagged(superlemma[1..]))
    else Tag(superlemma[1..])
  }

  /** A superlemma written with exactly one `@` splits back into its name and its tag. */
  lemma {:induction false} SplitTagged(name: string, tag: string)
    requires '@' !in name && '@' !in tag
    ensures Untagged(name + "@" + tag) == name
    ensures Tag(name + "@" + tag) == Some(tag)
    decreases |name|
  {
    var sl := name + "@" + tag;
    if name == [] {
      assert sl[0] == '@' && sl[1..] == tag;
      assert Untagged(tag) == tag;
    } else {
      SplitTagged(name[1..], tag);
      assert sl[0] == name[0] && sl[1..] == name[1..] + "@" + tag;
      assert [name[0]] + name[1..] == name;
    }
  }

  /** Whatever follows the first `@`, the name is what precedes it, and the tag runs up to the next `@`. */
  lemma {:induction false} TaggedPrefix(name: string, rest: string)
    requires '@' !in name
    ensures Untagged(name + "@" + rest) == name
    ensures Tag(name + "@" + rest) == Some(Untagged(rest))
    decreases |name|
  {
    var sl := name + "@" + rest;
    if name != [] {
      assert sl[1..] == name[1..] + "@" + rest;
      TaggedPrefix(name[1..], rest);
    } else {
      assert sl[1..] == rest;
    }
  }

  function ClassOf(tag: string): WordClass
  {
    if tag == "V" then Verb
    else if tag == "ADV" then Adverb
    else if tag == "PRO" then Pronoun
    else Other
  }

  // ---------------------------------------------------------------------------
  // Roots
  // ---------------------------------------------------------------------------

  /** How many characters a verb loses: 2 after `or`, 3 after `sco`, otherwise 1. */
  function VerbCut(name: string): nat
  {
    if EndsWith(name, "or") then 2 else if EndsWith(name, "sco") then 3 else 1
  }

  /** The suffix loop: each ending, in order, that ends the current (already shortened)
      superlemma is cut from it, and the lemma loses as many characters. */
  function Stripped(superlemma: string, lemmaForm: string, endings: seq<string>): RootPair
    decreases |endings|
  {
    if endings == [] then RootPair(superlemma, lemmaForm)
    else if EndsWith(superlemma, endings[0])
    then Stripped(DropLast(superlemma, |endings[0]|), DropLast(lemmaForm, |endings[0]|), endings[1..])
    else Stripped(superlemma, lemmaForm, endings[1..])
  }

  /** The root pair of a class; the lemma is cut by the count chosen on the superlemma alone. */
  function Roots(cls: WordClass, superlemma: string, lemmaForm: string): RootPair
  {
    match cls
    case Verb =>
      var name := Untagged(superlemma);
      RootPair(DropLast(name, VerbCut(name)), DropLast(lemmaForm, VerbCut(name)))
    case Adverb =>
      RootPair(Untagged(superlemma), lemmaForm)
    case Pronoun =>
      // the `er` test looks at the whole superlemma, tag included
      var n := if EndsWith(superlemma, "er") then 2 else 1;
      RootPair(DropLast(Untagged(superlemma), n), DropLast(lemmaForm, n))
    case Other =>
      Stripped(Untagged(superlemma), lemmaForm, Endings)
  }

  method StripEndings(superlemma: string, lemmaForm: string) returns (roots: RootPair)
    ensures roots == Stripped(superlemma, lemmaForm, Endings)
  {
    var sl, lf := superlemma, lemmaForm;
    for i := 0 to |Endings|
      invariant Stripped(sl, lf, Endings[i..]) == Stripped(superlemma, lemmaForm, Endings)
    {
      var ending := Endings[i];
      assert Endings[i..][0] == ending && Endings[i..][1..] == Endings[i + 1..];
      if EndsWith(sl, ending) {
        sl := DropLast(sl, |ending|);
        lf := DropLast(lf, |ending|);
      }
    }
    roots := RootPair(sl, lf);
  }

  method DeriveRoots(cls: WordClass, superlemma: string, lemmaForm: string) returns (roots: RootPair)
    ensures roots == Roots(cls, superlemma, lemmaForm)
  {
    if cls == Other {
      roots := StripEndings(Untagged(superlemma), lemmaForm);
    } else {
      roots := Roots(cls, superlemma, lemmaForm);
    }
  }

  /** Both roots are prefixes; the lemma loses as many characters as the superlemma, or all it has. */
  lemma {:induction false} StrippedShape(superlemma: string, lemmaForm: string, endings: seq<string>)
    requires forall k :: 0 <= k < |endings| ==> endings[k] != []
    ensures var r := Stripped(superlemma, lemmaForm, endings);
      && r.superlemmaRoot <= superlemma && r.lemmaRoot <= lemmaForm
      && |lemmaForm| - |r.lemmaRoot|
         == if |lemmaForm| <= |superlemma| - |r.superlemmaRoot| then |lemmaForm| else |superlemma| - |r.superlemmaRoot|
    decreases |endings|
  {
    if endings != [] {
      var e := endings[0];
      if EndsWith(superlemma, e) {
        var sl, lf := DropLast(superlemma, |e|), DropLast(lemmaForm, |e|);
        StrippedShape(sl, lf, endings[1..]);
        var r := Stripped(sl, lf, endings[1..]);
        assert r.superlemmaRoot <= sl <= superlemma;
        assert r.lemmaRoot <= lf <= lemmaForm;
      } else {
        StrippedShape(superlemma, lemmaForm, endings[1..]);
      }
    }
  }

  /** Every cut leaves a prefix of the untagged superlemma and a prefix of the lemma. */
  lemma RootsArePrefixes(cls: WordClass, superlemma: string, lemmaForm: string)
    ensures Roots(cls, superlemma, lemmaForm).superlemmaRoot <= Untagged(superlemma)
    ensures Roots(cls, superlemma, lemmaForm).lemmaRoot <= lemmaForm
  {
    if cls == Other {
      StrippedShape(Untagged(superlemma), lemmaForm, Endings);
    }
  }

  /** A verb `name@V` loses 2 characters after `or`, 3 after `sco` and 1 otherwise, from
      its name and from its lemma alike. */
  lemma VerbRoots(name: string, lemmaForm: string)
    requires '@' !in name
    ensures var n := if EndsWith(name, "or") then 2 else if EndsWith(name, "sco") then 3 else 1;
      Roots(Verb, name + "@V", lemmaForm) == RootPair(DropLast(name, n), DropLast(lemmaForm, n))
  {
    assert name + "@V" == name + "@" + "V";
    SplitTagged(name, "V");
  }

  /** `amor` ends in `or`: two characters go, from the name and from any lemma. */
  lemma AmorRoot(lemmaForm: string)
    ensures Roots(Verb, "amor@V", lemmaForm) == RootPair("am", DropLast(lemmaForm, 2))
  {
    assert "amor@V" == "amor" + "@V";
    VerbRoots("amor", lemmaForm);
    assert EndsWith("amor", "or") by { assert "amor"[2..] == "or"; }
    assert DropLast("amor", 2) == "am";
  }

  /** `cresco` ends in `sco` (not in `or`): three characters go. */
  lemma CrescoRoot(lemmaForm: string)
    ensures Roots(Verb, "cresco@V", lemmaForm) == RootPair("cre", DropLast(lemmaForm, 3))
  {
    assert "cresco@V" == "cresco" + "@V";
    VerbRoots("cresco", lemmaForm);
    assert !EndsWith("cresco", "or") by { assert "cresco"[4..][0] != "or"[0]; }
    assert EndsWith("cresco", "sco") by { assert "cresco"[3..] == "sco"; }
    assert DropLast("cresco", 3) == "cre";
  }

  /** Any other verb loses one character. */
  lemma LaudoRoot(lemmaForm: string)
    ensures Roots(Verb, "laudo@V", lemmaForm) == RootPair("laud", DropLast(lemmaForm, 1))
  {
    assert "laudo@V" == "laudo" + "@V";
    VerbRoots("laudo", lemmaForm);
    assert !EndsWith("laudo", "or") by { assert "laudo"[3..][0] != "or"[0]; }
    assert !EndsWith("laudo", "sco") by { assert "laudo"[2..][0] != "sco"[0]; }
    assert DropLast("laudo", 1) == "laud";
  }

  /** An adverb keeps its untagged name and its lemma whole. */
  lemma AdverbRoots(name: string, tag: string, lemmaForm: string)
    requires '@' !in name && '@' !in tag
    ensures Roots(Adverb, name + "@" + tag, lemmaForm) == RootPair(name, lemmaForm)
  {
    SplitTagged(name, tag);
  }

  /** A pronoun superlemma `name@PRO` always loses exactly one character, even when `name` ends
      in `er`: the `er` test sees the tagged superlemma, which ends in `RO`. */
  lemma PronounRoots(name: string, lemmaForm: string)
    requires '@' !in name
    ensures Tag(name + "@PRO") == Some("PRO")
    ensures Roots(Pronoun, name + "@PRO", lemmaForm) == RootPair(DropLast(name, 1), DropLast(lemmaForm, 1))
  {
    var sl := name + "@PRO";
    assert sl == name + "@" + "PRO";
    SplitTagged(name, "PRO");
    assert sl[|sl| - 2] == 'R';
    assert sl[|sl| - 2..][0] == sl[|sl| - 2];
    assert !EndsWith(sl, "er");
  }

  /** With a second `@` and a tail ending in `er`, the tagged superlemma does end in `er`,
      and two characters go. */
  lemma PronounRootsTailEr(name: string, tail: string, lemmaForm: string)
    requires '@' !in name && EndsWith(tail, "er")
    ensures Tag(name + "@PRO@" + tail) == Some("PRO")
    ensures Roots(Pronoun, name + "@PRO@" + tail, lemmaForm) == RootPair(DropLast(name, 2), DropLast(lemmaForm, 2))
  {
    var sl := name + "@PRO@" + tail;
    assert sl == name + "@" + ("PRO@" + tail);
    assert "PRO@" + tail == "PRO" + "@" + tail;
    TaggedPrefix(name, "PRO@" + tail);
    TaggedPrefix("PRO", tail);
    EndsWithConcat(name + "@PRO@", tail, "er");
  }

  lemma StrippedStep(superlemma: string, lemmaForm: string, endings: seq<string>, i: nat)
    requires i < |endings|
    ensures Stripped(superlemma, lemmaForm, endings[i..])
         == if EndsWith(superlemma, endings[i])
            then Stripped(DropLast(superlemma, |endings[i]|), DropLast(lemmaForm, |endings[i]|), endings[i + 1..])
            else Stripped(superlemma, lemmaForm, endings[i + 1..])
  {
    assert endings[i..][0] == endings[i] && endings[i..][1..] == endings[i + 1..];
  }

  /** Endings that do not match are passed over without changing either form. */
  lemma {:induction false} StrippedSkip(superlemma: string, lemmaForm: string, endings: seq<string>, i: nat, j: nat)
    requires i <= j <= |endings|
    requires forall k :: i <= k < j ==> !EndsWith(superlemma, endings[k])
    ensures Stripped(superlemma, lemmaForm, endings[i..]) == Stripped(superlemma, lemmaForm, endings[j..])
    decreases j - i
  {
    if i < j {
      StrippedStep(superlemma, lemmaForm, endings, i);
      StrippedSkip(superlemma, lemmaForm, endings, i + 1, j);
    }
  }

  /** A word ends in none of the endings listed after `a`: `us`, `is`, `es`, `as`. */
  predicate EndsInNoLaterEnding(stem: string)
  {
    forall k :: 6 <= k < |Endings| ==> !EndsWith(stem, Endings[k])
  }

  /** Two strings that end in different characters do not end one with the other. */
  lemma LastCharsDiffer(s: string, suffix: string)
    requires s != [] && suffix != [] && s[|s| - 1] != suffix[|suffix| - 1]
    ensures !EndsWith(s, suffix)
  {
  }

  /** No ending listed before `a` ends a word in `a`: each of them ends in another letter. */
  lemma FinalAPassesEarlierEndings(stem: string)
    ensures forall k :: 0 <= k < 5 ==> !EndsWith(stem + "a", Endings[k])
  {
    var w := stem + "a";
    assert w[|w| - 1] == 'a';
    forall k | 0 <= k < 5
      ensures !EndsWith(w, Endings[k])
    {
      LastCharsDiffer(w, Endings[k]);
    }
  }

  /** A word in `a` reaches the ending `a` unchanged, and `a` takes one character from both forms. */
  lemma FinalALosesA(stem: string, lemmaForm: string)
    ensures Stripped(stem + "a", lemmaForm, Endings) == Stripped(stem, DropLast(lemmaForm, 1), Endings[6..])
  {
    var w := stem + "a";
    FinalAPassesEarlierEndings(stem);
    assert Endings[0..] == Endings;
    StrippedSkip(w, lemmaForm, Endings, 0, 5);
    StrippedStep(w, lemmaForm, Endings, 5);
    assert w[|w| - 1..] == "a";
    assert DropLast(w, 1) == stem;
  }

  /** The stem left after `a` is cut keeps every later ending from matching, unless it ends in one. */
  lemma StemKeeps(stem: string, lemmaForm: string)
    requires EndsInNoLaterEnding(stem)
    ensures Stripped(stem, lemmaForm, Endings[6..]) == RootPair(stem, lemmaForm)
  {
    assert Endings[10..] == [];
    StrippedSkip(stem, lemmaForm, Endings, 6, 10);
  }

  /** A word in `a` whose stem ends in none of `us`, `is`, `es`, `as` loses its final `a` and nothing
      more, and the lemma loses one character with it: the suffix loop cuts one ending only. */
  lemma FinalARoot(stem: string, lemmaForm: string)
    requires EndsInNoLaterEnding(stem)
    ensures Stripped(stem + "a", lemmaForm, Endings) == RootPair(stem, DropLast(lemmaForm, 1))
  {
    FinalALosesA(stem, lemmaForm);
    StemKeeps(stem, DropLast(lemmaForm, 1));
  }

  /** `ros` ends in `os`, which the loop has passed by the time `a` is cut. */
  lemma RosStem()
    ensures EndsInNoLaterEnding("ros")
  {
    assert "ros"[1..] == "os";
    assert "ros"[1] == 'o';
    forall k | 6 <= k < |Endings|
      ensures !EndsWith("ros", Endings[k])
    {
      assert Endings[k][0] != 'o';
    }
  }

  /** `rosa` loses its final `a` and nothing more, although `ros` ends in `s`; whatever the lemma, it
      loses one character too. */
  lemma RosaRoot(lemmaForm: string)
    ensures Stripped("rosa", lemmaForm, Endings) == RootPair("ros", DropLast(lemmaForm, 1))
  {
    assert "rosa" == "ros" + "a";
    RosStem();
    FinalARoot("ros", lemmaForm);
  }

  /** `deus` ends in `us` (and not in `um`): two characters go from both forms. */
  lemma DeusLosesUs(lemmaForm: string)
    ensures Stripped("deus", lemmaForm, Endings) == Stripped("de", DropLast(lemmaForm, 2), Endings[2..])
  {
    assert Endings[0..] == Endings;
    assert "deus"[2..] == "us" && DropLast("deus", 2) == "de";
    StrippedStep("deus", lemmaForm, Endings, 0);
    StrippedStep("deus", lemmaForm, Endings, 1);
  }

  /** What is left, `de`, ends in `e` (and not in `u`): one more character goes. */
  lemma DeLosesE(lemmaForm: string)
    ensures Stripped("de", lemmaForm, Endings[2..]) == Stripped("d", DropLast(lemmaForm, 1), Endings[4..])
  {
    assert Endings[2] == "u" && Endings[3] == "e";
    assert !EndsWith("de", "u") by { assert "de"[1..][0] != "u"[0]; }
    assert EndsWith("de", "e") by { assert "de"[1..] == "e"; }
    assert DropLast("de", 1) == "d";
    StrippedStep("de", lemmaForm, Endings, 2);
    StrippedStep("de", lemmaForm, Endings, 3);
  }

  lemma DKeeps(lemmaForm: string)
    ensures Stripped("d", lemmaForm, Endings[4..]) == RootPair("d", lemmaForm)
  {
    assert Endings[10..] == [];
    StrippedSkip("d", lemmaForm, Endings, 4, 10);
  }

  /** `deus` loses `us`, and then, now `de`, also `e`: the loop does not stop at the first
      match, and the lemma is cut both times. */
  lemma DeusRoot(lemmaForm: string)
    ensures Stripped("deus", lemmaForm, Endings) == RootPair("d", DropLast(DropLast(lemmaForm, 2), 1))
  {
    var lf := DropLast(lemmaForm, 2);
    DeusLosesUs(lemmaForm);
    DeLosesE(lf);
    DKeeps(DropLast(lf, 1));
  }

  // ---------------------------------------------------------------------------
  // One word
  // ---------------------------------------------------------------------------

  /** When the word starts with an upper-case letter, both roots are capitalised. */
  function Recased(word: string, roots: RootPair): RootPair
    requires word != []
  {
    if IsUpper(word[0]) then RootPair(Capitalize(roots.superlemmaRoot), Capitalize(roots.lemmaRoot))
    else roots
  }

  /** The outcome of one candidate word (lines 134-204 of the source). */
  function Normalize(word: string, lexicon: seq<Row>, verbEndings: seq<(string, string)>): Outcome
  {
    match Lookup(lexicon, Lower(word))
    case None => Skipped(NotInLexicon)
    case Some(row) =>
      if row.superlemma in Stopwords then Skipped(Stopword)
      else if Last(Untagged(row.superlemma)) != Last(row.lemmaForm) then Skipped(Inconsistent)
      else match Tag(row.superlemma)
        case None => Crashed(UntaggedSuperlemma)
        case Some(tag) =>
          if word == [] then Crashed(EmptyWord)
          else
            var cls := ClassOf(tag);
            var roots := Recased(word, Roots(cls, row.superlemma, row.lemmaForm));
            var replaced := Replace(word, roots.lemmaRoot, roots.superlemmaRoot);
            Normalised(if cls == Verb then ReplaceEach(replaced, verbEndings) else replaced)
  }

  /** The source's steps for one word, its two loops included. */
  method NormalizeWord(word: string, lexicon: seq<Row>, verbEndings: seq<(string, string)>)
    returns (outcome: Outcome)
    ensures outcome == Normalize(word, lexicon, verbEndings)
  {
    var found := Lookup(lexicon, Lower(word));
    if found.None? {
      return Skipped(NotInLexicon);
    }
    var superlemma, lemmaForm := found.value.superlemma, found.value.lemmaForm;
    if superlemma in Stopwords {
      return Skipped(Stopword);
    }
    if Last(Untagged(superlemma)) != Last(lemmaForm) {
      return Skipped(Inconsistent);
    }
    var tag := Tag(superlemma);
    if tag.None? {
      return Crashed(UntaggedSuperlemma);
    }
    var cls := ClassOf(tag.value);
    var roots := DeriveRoots(cls, superlemma, lemmaForm);
    if word == [] {
      return Crashed(EmptyWord);
    }
    roots := Recased(word, roots);
    var normalised := Replace(word, roots.lemmaRoot, roots.superlemmaRoot);
    if cls == Verb {
      normalised := ReplaceInOrder(normalised, verbEndings);
    }
    outcome := Normalised(normalised);
  }

  /** A word gets no substitution exactly when it has no lexicon row, its superlemma is a
      stopword, or the untagged superlemma and the lemma end differently. */
  lemma NoSubstitutionCases(word: string, lexicon: seq<Row>, verbEndings: seq<(string, string)>)
    ensures Lookup(lexicon, Lower(word)).None? ==> Normalize(word, lexicon, verbEndings) == Skipped(NotInLexicon)
    ensures var found := Lookup(lexicon, Lower(word));
      found.Some? ==>
        (Normalize(word, lexicon, verbEndings).Skipped?
         <==> found.value.superlemma in Stopwords || Last(Untagged(found.value.superlemma)) != Last(found.value.lemmaForm))
  {
  }

  /** With an upper-case first letter, the word is rewritten with both roots capitalised: a
      capitalised word whose lemma root starts it comes out capitalised again. */
  lemma CapitalisedWord(word: string, roots: RootPair)
    requires word != [] && IsUpper(word[0])
    requires roots.lemmaRoot != [] && Capitalize(roots.lemmaRoot) <= word
    requires roots.superlemmaRoot != [] && (IsLower(roots.superlemmaRoot[0]) || IsUpper(roots.superlemmaRoot[0]))
    ensures var r := Recased(word, roots);
      var out := Replace(word, r.lemmaRoot, r.superlemmaRoot);
      out != [] && IsUpper(out[0])
  {
  }

  /** "Rosa" with the roots "flor" (superlemma) and "ros" (lemma) becomes "Flora". */
  lemma CapitalisedExample()
    ensures var r := Recased("Rosa", RootPair("flor", "ros"));
      Replace("Rosa", r.lemmaRoot, r.superlemmaRoot) == "Flora"
  {
    var r := Recased("Rosa", RootPair("flor", "ros"));
    assert r.lemmaRoot == "Ros" && r.superlemmaRoot == "Flor";
    assert "Ros" <= "Rosa";
    assert "Rosa"[3..] == "a";
    assert Replace("a", "Ros", "Flor") == "a";
  }

  /** The row (`rosa`, `flora@NN`, `rosa`) is the one `Rosa` finds. */
  lemma RosaLookup()
    ensures Lower("Rosa") == "rosa"
    ensures Lookup([Row("rosa", "flora@NN", "rosa")], "rosa") == Some(Row("rosa", "flora@NN", "rosa"))
  {
    assert ToLower('R') == 'r';
  }

  /** `flora@NN` is none of the three stopwords. */
  lemma FloraNoStopword()
    ensures "flora@NN" !in Stopwords
  {
    assert "flora@NN"[0] != "alea@NN"[0];
    assert "flora@NN"[0] != "hilla@NN"[0];
    assert "flora@NN"[0] != "a@AP"[0];
  }

  /** `flora@NN` splits into the name `flora` and the tag `NN`. */
  lemma FloraTagged()
    ensures Untagged("flora@NN") == "flora" && Tag("flora@NN") == Some("NN")
  {
    assert "flora@NN" == "flora" + "@" + "NN";
    SplitTagged("flora", "NN");
  }

  /** The name `flora` and the lemma `rosa` both end in `a`, and `NN` is of the default class. */
  lemma FloraChecks()
    ensures Last("flora") == Last("rosa")
    ensures ClassOf("NN") == Other
  {
    assert "NN"[0] == 'N';
  }

  /** `flor` ends in `r`, and every ending after `a` in `s`. */
  lemma FlorStem()
    ensures EndsInNoLaterEnding("flor")
  {
    assert "flor"[3] == 'r';
    forall k | 6 <= k < |Endings|
      ensures !EndsWith("flor", Endings[k])
    {
      LastCharsDiffer("flor", Endings[k]);
    }
  }

  /** Under the superlemma `flora@NN` the suffix loop cuts `a` from the name and one character from any lemma. */
  lemma FloraRoots(lemmaForm: string)
    ensures Roots(Other, "flora@NN", lemmaForm) == RootPair("flor", DropLast(lemmaForm, 1))
  {
    FloraTagged();
    assert "flora" == "flor" + "a";
    FlorStem();
    FinalARoot("flor", lemmaForm);
  }

  /** A word whose row passes every check and whose tag is of the default class is normalised by
      replacing its recased lemma root with its recased superlemma root. */
  lemma NormalizeOther(word: string, lexicon: seq<Row>, verbEndings: seq<(string, string)>, row: Row, tag: string)
    requires Lookup(lexicon, Lower(word)) == Some(row)
    requires row.superlemma !in Stopwords && Last(Untagged(row.superlemma)) == Last(row.lemmaForm)
    requires Tag(row.superlemma) == Some(tag) && ClassOf(tag) == Other && word != []
    ensures var roots := Recased(word, Roots(Other, row.superlemma, row.lemmaForm));
      Normalize(word, lexicon, verbEndings) == Normalised(Replace(word, roots.lemmaRoot, roots.superlemmaRoot))
  {
  }

  /** `Rosa` is capitalised: the roots `flor` and `ros` of the row (`rosa`, `flora@NN`, `rosa`) become
      `Flor` and `Ros`, and replacing one by the other in `Rosa` gives `Flora`. */
  lemma RosaRecased()
    ensures var r := Recased("Rosa", Roots(Other, "flora@NN", "rosa"));
      Replace("Rosa", r.lemmaRoot, r.superlemmaRoot) == "Flora"
  {
    FloraRoots("rosa");
    assert DropLast("rosa", 1) == "ros";
    CapitalisedExample();
  }

  /** The whole word step on one example: with the single row (`rosa`, `flora@NN`, `rosa`), `Rosa` is
      normalised to `Flora`. */
  lemma NormalizeRosa()
    ensures Normalize("Rosa", [Row("rosa", "flora@NN", "rosa")], []) == Normalised("Flora")
  {
    RosaLookup();
    FloraNoStopword();
    FloraTagged();
    FloraChecks();
    NormalizeOther("Rosa", [Row("rosa", "flora@NN", "rosa")], [], Row("rosa", "flora@NN", "rosa"), "NN");
    RosaRecased();
  }

  /** The verb-ending table rewrites the whole word, not only its end: with the entry
      (`nt`, `unt`), `intrant` becomes `iuntraunt`. */
  lemma VerbEndingsWholeWord()
    ensures ReplaceEach("intrant", [("nt", "unt")]) == "iuntraunt"
  {
    var pat, rep := "nt", "unt";
    assert "intrant"[0] != pat[0] && "intrant"[1..] == "ntrant";
    assert "ntrant"[..2] == pat && "ntrant"[2..] == "rant";
    assert "rant"[0] != pat[0] && "rant"[1..] == "ant";
    assert "ant"[0] != pat[0] && "ant"[1..] == "nt";
    assert "nt"[2..] == [];
    assert Replace("nt", pat, rep) == rep;
    assert Replace("ant", pat, rep) == "aunt";
    assert Replace("rant", pat, rep) == "raunt";
    assert Replace("ntrant", pat, rep) == "untraunt";
    assert Replace("intrant", pat, rep) == "iuntraunt";
    assert [("nt", "unt")][1..] == [];
  }

  // ---------------------------------------------------------------------------
  // One page, and a run
  // ---------------------------------------------------------------------------

  /** The page text once the words have been handled in the given order, or the exception
      that stopped the pass. */
  function NormalizedText(text: string, words: seq<string>, lexicon: seq<Row>, cfg: Tables): Result<string, Fault>
    decreases |words|
  {
    if words == [] then Success(text)
    else match Normalize(words[0], lexicon, cfg.verbEndings)
      case Skipped(_) => NormalizedText(text, words[1..], lexicon, cfg)
      case Normalised(n) => NormalizedText(Substituted(text, words[0], n, cfg.clean), words[1..], lexicon, cfg)
      case Crashed(f) => Failure(f)
  }

  lemma NormalizedTextStep(text: string, words: seq<string>, i: nat, lexicon: seq<Row>, cfg: Tables)
    requires i < |words|
    ensures var o := Normalize(words[i], lexicon, cfg.verbEndings);
      NormalizedText(text, words[i..], lexicon, cfg)
      == if o.Skipped? then NormalizedText(text, words[i + 1..], lexicon, cfg)
         else if o.Normalised? then NormalizedText(Substituted(text, words[i], o.word, cfg.clean), words[i + 1..], lexicon, cfg)
         else Failure(o.fault)
  {
    assert words[i..][0] == words[i] && words[i..][1..] == words[i + 1..];
  }

  /** The per-word loop of one page. */
  method NormalizePage(text: string, words: seq<string>, lexicon: seq<Row>, cfg: Tables)
    returns (result: Result<string, Fault>)
    ensures result == NormalizedText(text, words, lexicon, cfg)
  {
    var t := text;
    for i := 0 to |words|
      invariant NormalizedText(t, words[i..], lexicon, cfg) == NormalizedText(text, words, lexicon, cfg)
    {
      var word := words[i];
      NormalizedTextStep(t, words, i, lexicon, cfg);
      var outcome := NormalizeWord(word, lexicon, cfg.verbEndings);
      match outcome
      case Skipped(_) =>
      case Normalised(n) =>
        t := Substitute(t, word, n, cfg.clean);
      case Crashed(f) =>
        return Failure(f);
    }
    assert words[|words|..] == [];
    result := Success(t);
  }

  /** Words that are all skipped leave the page as it was. */
  lemma {:induction false} SkippedWordsKeepPage(text: string, words: seq<string>, lexicon: seq<Row>, cfg: Tables)
    requires forall w :: w in words ==> Normalize(w, lexicon, cfg.verbEndings).Skipped?
    ensures NormalizedText(text, words, lexicon, cfg) == Success(text)
    decreases |words|
  {
    if words != [] {
      SkippedWordsKeepPage(text, words[1..], lexicon, cfg);
    }
  }

  /** From markup-free words, lexicon and verb-ending table only markup-free words come out. */
  lemma NormalisedMarkupFree(word: string, lexicon: seq<Row>, verbEndings: seq<(string, string)>)
    requires MarkupFree(word)
    requires forall row :: row in lexicon ==> MarkupFree(row.superlemma) && MarkupFree(row.lemmaForm)
    requires forall k :: 0 <= k < |verbEndings| ==> MarkupFree(verbEndings[k].0) && MarkupFree(verbEndings[k].1)
    ensures Normalize(word, lexicon, verbEndings).Normalised? ==> MarkupFree(Normalize(word, lexicon, verbEndings).word)
  {
    var found := Lookup(lexicon, Lower(word));
    if found.Some? && word != [] && Tag(found.value.superlemma).Some? {
      var row := found.value;
      var cls := ClassOf(Tag(row.superlemma).value);
      var roots := Roots(cls, row.superlemma, row.lemmaForm);
      RootsArePrefixes(cls, row.superlemma, row.lemmaForm);
      PrefixMarkupFree(Untagged(row.superlemma), row.superlemma);
      PrefixMarkupFree(roots.superlemmaRoot, Untagged(row.superlemma));
      PrefixMarkupFree(roots.lemmaRoot, row.lemmaForm);
      CapitalizeKeeps(roots.superlemmaRoot, '<');
      CapitalizeKeeps(roots.superlemmaRoot, '>');
      CapitalizeKeeps(roots.lemmaRoot, '<');
      CapitalizeKeeps(roots.lemmaRoot, '>');
      var r := Recased(word, roots);
      ReplaceMarkupFree(word, r.lemmaRoot, r.superlemmaRoot);
      ReplaceEachMarkupFree(Replace(word, r.lemmaRoot, r.superlemmaRoot), verbEndings);
    }
  }

  /** With markup-free words, lexicon and verb endings, a normalisation pass that completes
      keeps the page's number of `<` and of `>`. */
  lemma {:induction false} NormalizationKeepsMarkup(text: string, words: seq<string>, lexicon: seq<Row>, cfg: Tables)
    requires forall w :: w in words ==> MarkupFree(w)
    requires forall row :: row in lexicon ==> MarkupFree(row.superlemma) && MarkupFree(row.lemmaForm)
    requires forall k :: 0 <= k < |cfg.verbEndings| ==> MarkupFree(cfg.verbEndings[k].0) && MarkupFree(cfg.verbEndings[k].1)
    ensures var r := NormalizedText(text, words, lexicon, cfg);
      r.Success? ==> multiset(r.value)['<'] == multiset(text)['<'] && multiset(r.value)['>'] == multiset(text)['>']
    decreases |words|
  {
    if words != [] {
      var w := words[0];
      match Normalize(w, lexicon, cfg.verbEndings)
      case Skipped(_) =>
        NormalizationKeepsMarkup(text, words[1..], lexicon, cfg);
      case Normalised(n) =>
        NormalisedMarkupFree(w, lexicon, cfg.verbEndings);
        SubstituteKeepsMarkup(text, w, n, cfg.clean);
        NormalizationKeepsMarkup(Substituted(text, w, n, cfg.clean), words[1..], lexicon, cfg);
      case Crashed(_) =>
    }
  }

  /** The whole normalisation run: pages in order until the first exception. Each output is
      the page's text after the pass over the listing of its candidate words returned in
      `wordLists`; when a word raises, the run stops at that page and reports the fault. */
  method NormalizeRun(pages: seq<Page>, lexicon: seq<Row>, cfg: Tables)
    returns (outputs: seq<string>, fault: Option<Fault>, wordLists: seq<seq<string>>)
    ensures fault.None? ==> |outputs| == |pages| == |wordLists|
    ensures fault.Some? ==> |outputs| < |pages| && |wordLists| == |outputs| + 1
    ensures forall p :: 0 <= p < |wordLists| ==> UniqueWordsOf(wordLists[p], pages[p].lines, cfg.clean)
    ensures forall p :: 0 <= p < |outputs| ==>
              NormalizedText(pages[p].text, wordLists[p], lexicon, cfg) == Success(outputs[p])
    ensures fault.Some? ==>
              NormalizedText(pages[|outputs|].text, wordLists[|outputs|], lexicon, cfg) == Failure(fault.value)
  {
    outputs, wordLists := [], [];
    for i := 0 to |pages|
      invariant |outputs| == i && |wordLists| == i
      invariant forall p :: 0 <= p < i ==> UniqueWordsOf(wordLists[p], pages[p].lines, cfg.clean)
      invariant forall p :: 0 <= p < i ==>
                  NormalizedText(pages[p].text, wordLists[p], lexicon, cfg) == Success(outputs[p])
    {
      var words := GetUniqueWords(pages[i].lines, cfg.clean);
      wordLists := wordLists + [words];
      var result := NormalizePage(pages[i].text, words, lexicon, cfg);
      if result.Failure? {
        return outputs, Some(result.error), wordLists;
      }
      outputs := outputs + [result.value];
    }
    fault := None;
  }
}
