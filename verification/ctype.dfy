/**
 * Character classification and case mapping on ASCII codes, taking the
 * character as a C `int`. Codes outside the ASCII ranges named below are in
 * no class and are left alone by the case mappings.
 */
module Ctype {
  /** `isdigit`: '0' to '9'. */
  predicate IsDigit(ch: int)
  {
    '0' as int <= ch <= '9' as int
  }

  /** `islower`: 'a' to 'z'. */
  predicate IsLower(ch: int)
  {
    'a' as int <= ch <= 'z' as int
  }

  /** `isupper`: 'A' to 'Z'. */
  predicate IsUpper(ch: int)
  {
    'A' as int <= ch <= 'Z' as int
  }

  /** `isxdigit`: a decimal digit or a letter from a to f in either case. */
  function IsXDigit(ch: int): (b: bool)
    ensures b <==> IsDigit(ch) || 'a' as int <= ToLower(ch) <= 'f' as int
  {
    IsDigit(ch) || ('a' as int <= ch <= 'f' as int) || ('A' as int <= ch <= 'F' as int)
  }

  /** `isalpha`: a letter in either case. */
  function IsAlpha(ch: int): (b: bool)
    ensures b <==> IsLower(ToLower(ch))
  {
    IsLower(ch) || IsUpper(ch)
  }

  /** `isalnum`: a digit or a letter, that is one of the 62 codes 48..57, 65..90 and 97..122. */
  function IsAlnum(ch: int): (b: bool)
    ensures b <==> (48 <= ch <= 57) || (65 <= ch <= 90) || (97 <= ch <= 122)
    ensures b ==> !IsPunct(ch) && !IsSpace(ch)
  {
    IsDigit(ch) || IsAlpha(ch)
  }

  /** `isblank`: tab or space. */
  function IsBlank(ch: int): (b: bool)
    ensures b <==> ch == 9 || ch == 32
  {
    ch == '\t' as int || ch == ' ' as int
  }

  /**
   * The blanks are the horizontal spaces: each is a space and in no other
   * class, and the spaces that are not blank are the four line and page
   * controls 10 to 13.
   */
  lemma BlankIsSpace(ch: int)
    ensures IsBlank(ch) ==> IsSpace(ch) && !IsAlnum(ch) && !IsPunct(ch)
    ensures IsSpace(ch) && !IsBlank(ch) <==> 10 <= ch <= 13
  {
  }

  /** `isspace`: newline, vertical tab, form feed, carriage return, tab or space. */
  function IsSpace(ch: int): (b: bool)
    ensures b <==> 9 <= ch <= 13 || ch == 32
  {
    ch == '\n' as int || ch == 11 || ch == 12 || ch == '\r' as int || IsBlank(ch)
  }

  /**
   * `ispunct`, written in the source as seven ranges: exactly the printable
   * codes other than space that are not letters or digits.
   */
  function IsPunct(ch: int): (b: bool)
    ensures b <==> 33 <= ch <= 126 && !((48 <= ch <= 57) || (65 <= ch <= 90) || (97 <= ch <= 122))
  {
    ('!' as int <= ch <= '\'' as int) ||
    ('(' as int <= ch <= '/' as int) ||
    (':' as int <= ch <= '?' as int) ||
    ch == '@' as int ||
    ('[' as int <= ch <= '_' as int) ||
    ch == '`' as int ||
    ('{' as int <= ch <= '~' as int)
  }

  /** `toupper`: a lowercase letter becomes the uppercase letter at the same place in the alphabet. */
  function ToUpper(ch: int): (r: int)
    ensures IsLower(ch) ==> IsUpper(r) && r - 'A' as int == ch - 'a' as int
    ensures !IsLower(ch) ==> r == ch
  {
    if IsLower(ch) then ch - 'a' as int + 'A' as int else ch
  }

  /** `tolower`: an uppercase letter becomes the lowercase letter at the same place in the alphabet. */
  function ToLower(ch: int): (r: int)
    ensures IsUpper(ch) ==> IsLower(r) && r - 'a' as int == ch - 'A' as int
    ensures !IsUpper(ch) ==> r == ch
  {
    if IsUpper(ch) then ch - 'A' as int + 'a' as int else ch
  }

  /** The classes partition the printable codes 33..126: each is a digit, a letter or punctuation, and only one. */
  lemma PrintableClasses(ch: int)
    requires 33 <= ch <= 126
    ensures IsDigit(ch) || IsAlpha(ch) || IsPunct(ch)
    ensures !(IsDigit(ch) && IsAlpha(ch)) && !(IsAlnum(ch) && IsPunct(ch))
  {
  }

  /** Both mappings are idempotent and never leave a letter in the other case. */
  lemma CaseMapsIdempotent(ch: int)
    ensures ToUpper(ToUpper(ch)) == ToUpper(ch) && ToLower(ToLower(ch)) == ToLower(ch)
    ensures !IsLower(ToUpper(ch)) && !IsUpper(ToLower(ch))
  {
  }

  /** The two mappings undo each other on letters of the case they start from. */
  lemma CaseRoundTrip(ch: int)
    ensures IsLower(ch) ==> ToLower(ToUpper(ch)) == ch
    ensures IsUpper(ch) ==> ToUpper(ToLower(ch)) == ch
  {
  }

  /** Case mapping keeps every class that ignores case. */
  lemma CaseMapsKeepClasses(ch: int)
    ensures IsAlpha(ToUpper(ch)) == IsAlpha(ch) && IsAlnum(ToUpper(ch)) == IsAlnum(ch)
    ensures IsXDigit(ToUpper(ch)) == IsXDigit(ch) && IsDigit(ToUpper(ch)) == IsDigit(ch)
  {
  }
}
