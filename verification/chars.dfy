/** Character classes used by the keyword normaliser and the splitter. */
module Chars {

  /** Python's `str.isspace`: the characters `\s` matches in a `str` regex and
      the characters `str.strip()` removes. It includes the ideographic space U+3000. */
  predicate IsSpace(c: char) {
    || ('\t' <= c <= '\r')
    || ('\U{1C}' <= c <= '\U{1F}')
    || c == ' '
    || c == '\U{85}'
    || c == '\U{A0}'
    || c == '\U{1680}'
    || ('\U{2000}' <= c <= '\U{200A}')
    || c == '\U{2028}'
    || c == '\U{2029}'
    || c == '\U{202F}'
    || c == '\U{205F}'
    || c == '\U{3000}'
  }

  /** The characters `remove_excluded_characters` deletes:
      ~ ! ` @ # $ % ^ * _ = \ > < / ? ' " [ ] { } and the full-width
      colon, semicolon and comma, and the hyphenation point U+2027. */
  predicate IsExcluded(c: char) {
    || c == '~' || c == '!' || c == '`' || c == '@' || c == '#' || c == '$'
    || c == '%' || c == '^' || c == '*' || c == '_' || c == '=' || c == '\\'
    || c == '>' || c == '<' || c == '/' || c == '?' || c == '\'' || c == '"'
    || c == '[' || c == ']' || c == '{' || c == '}'
    || c == '\U{FF1A}' || c == '\U{FF1B}' || c == '\U{FF0C}' || c == '\U{2027}'
  }

  /** The full-width ampersand, rewritten to `&`. */
  const FullWidthAmp: char := '\U{FF06}'

  /** The full-width (ideographic) space, which line 53 also means to rewrite to `&`. */
  const IdeographicSpace: char := '\U{3000}'

  /** The three operator symbols: AND `&`, OR `+`, DIFFERENCE `-`. */
  predicate IsOp(c: char) {
    c == '&' || c == '+' || c == '-'
  }

  /** The characters `re.split(r'([&+\-()])', ...)` splits on. */
  predicate IsDelim(c: char) {
    IsOp(c) || c == '(' || c == ')'
  }

  predicate IsAmp(c: char) {
    c == '&'
  }

  /** A character that can survive normalisation: no whitespace, nothing excluded,
      no full-width ampersand. */
  predicate CanonicalChar(c: char) {
    !IsSpace(c) && !IsExcluded(c) && c != FullWidthAmp
  }

  /** The content each normalisation step keeps, as predicates to filter a text by. */
  predicate NonSpace(c: char) {
    !IsSpace(c)
  }

  predicate NotExcluded(c: char) {
    !IsExcluded(c)
  }

  predicate NotAmp(c: char) {
    c != '&'
  }

  /** What tokenising keeps of the text: neither whitespace nor `&`. */
  predicate Solid(c: char) {
    !IsSpace(c) && c != '&'
  }

  /** What the whole normaliser keeps of a keyword: a canonical character other than `&`. */
  predicate Significant(c: char) {
    CanonicalChar(c) && c != '&'
  }

  /** Operators and parentheses are not whitespace, so stripping never removes them. */
  lemma DelimNotSpace(c: char)
    requires IsDelim(c)
    ensures !IsSpace(c)
  {
  }

  lemma DelimCanonical(c: char)
    requires IsDelim(c)
    ensures CanonicalChar(c)
  {
  }

  /** Whitespace is neither deleted by line 48 nor rewritten by line 53's first replacement. */
  lemma SpaceKept(c: char)
    requires IsSpace(c)
    ensures !IsExcluded(c) && c != FullWidthAmp
  {
  }
}
