/**
 * The process-wide configuration tables the normaliser reads, passed in as
 * one immutable value instead of being read from a global module.
 */
module Config {

  datatype Tables = Tables(
    /** Punctuation and diacritics removed before splitting, and accepted as word delimiters. */
    clean: seq<char>,
    /** Characters whose presence marks a word as a scribal abbreviation. */
    special: seq<char>,
    /** Ordered (pattern, replacement) rules for expanding an abbreviation no dictionary knows. */
    expansionRules: seq<(string, string)>,
    /** Ordered (old ending, new ending) replacements applied to normalised verbs. */
    verbEndings: seq<(string, string)>)
}
