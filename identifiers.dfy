/**
 * The two regular-expression tests of the generator: `isAlphaNum`, which
 * accepts a class or namespace name, and the legacy-prefix test inside
 * `getFileName`. Both patterns are anchored sequences of character classes,
 * so they are modelled as exactly that: a `seq<CharClass>` matched against
 * the start of a string, optionally ignoring (ASCII) case.
 */
module Identifiers {

  /** A regular-expression character class: a union of inclusive ranges. */
  datatype CharClass = Range(lo: char, hi: char) | Union(left: CharClass, right: CharClass)

  predicate IsAsciiUpper(c: char) { 'A' <= c <= 'Z' }

  predicate IsAsciiLower(c: char) { 'a' <= c <= 'z' }

  predicate IsAsciiLetter(c: char) { IsAsciiUpper(c) || IsAsciiLower(c) }

  predicate IsAsciiDigit(c: char) { '0' <= c <= '9' }

  /** The other-case partner of an ASCII letter; every other character is its own partner. */
  function SwapCase(c: char): (r: char)
    ensures IsAsciiUpper(c) <==> IsAsciiLower(r)
    ensures IsAsciiLower(c) <==> IsAsciiUpper(r)
    ensures !IsAsciiLetter(c) ==> r == c
  {
    if IsAsciiUpper(c) then c - 'A' + 'a'
    else if IsAsciiLower(c) then c - 'a' + 'A'
    else c
  }

  predicate InClass(c: char, cls: CharClass) {
    match cls
    case Range(lo, hi) => lo <= c <= hi
    case Union(l, r) => InClass(c, l) || InClass(c, r)
  }

  /** Membership as the regular-expression engine decides it, with or without IGNORECASE. */
  predicate ClassMatches(c: char, cls: CharClass, ignoreCase: bool) {
    InClass(c, cls) || (ignoreCase && InClass(SwapCase(c), cls))
  }

  /** `re.match('^' + pattern, s)` for a pattern made only of character classes. */
  predicate MatchesPrefix(pattern: seq<CharClass>, s: string, ignoreCase: bool)
    decreases |pattern|
  {
    if pattern == [] then true
    else |s| > 0 && ClassMatches(s[0], pattern[0], ignoreCase)
         && MatchesPrefix(pattern[1..], s[1..], ignoreCase)
  }

  /** `[a-z_]` */
  const IdentStart: CharClass := Union(Range('a', 'z'), Range('_', '_'))
  /** `[a-z0-9_]` */
  const IdentPart: CharClass := Union(Range('a', 'z'), Union(Range('0', '9'), Range('_', '_')))
  /** `^[a-z_][a-z0-9_]`, used with re.IGNORECASE */
  const AlphaNumPattern: seq<CharClass> := [IdentStart, IdentPart]
  /** `^(I|C)[A-Z]`, used case-sensitively */
  const LegacyPrefixPattern: seq<CharClass> := [Union(Range('I', 'I'), Range('C', 'C')), Range('A', 'Z')]

  /** isAlphaNum: the name starts with a letter or `_` followed by a letter, digit or `_`. */
  predicate IsAlphaNum(word: string) {
    MatchesPrefix(AlphaNumPattern, word, true)
  }

  /** The pattern-free characterisation of isAlphaNum, in both directions. */
  lemma IsAlphaNumIff(word: string)
    ensures IsAlphaNum(word) <==>
      |word| >= 2
      && (IsAsciiLetter(word[0]) || word[0] == '_')
      && (IsAsciiLetter(word[1]) || IsAsciiDigit(word[1]) || word[1] == '_')
  {
    assert AlphaNumPattern[1..] == [IdentPart];
    assert AlphaNumPattern[1..][1..] == [];
    if |word| >= 2 {
      assert word[1..][0] == word[1];
      IdentStartMatches(word[0]);
      IdentPartMatches(word[1]);
      assert MatchesPrefix(AlphaNumPattern[1..], word[1..], true) <==> ClassMatches(word[1], IdentPart, true);
    } else if |word| == 1 {
      assert !MatchesPrefix(AlphaNumPattern[1..], word[1..], true);
    }
  }

  lemma IdentStartMatches(c: char)
    ensures ClassMatches(c, IdentStart, true) <==> IsAsciiLetter(c) || c == '_'
  {
    var s := SwapCase(c);
    assert InClass(c, IdentStart) <==> IsAsciiLower(c) || c == '_';
    assert InClass(s, IdentStart) <==> IsAsciiLower(s) || s == '_';
  }

  lemma IdentPartMatches(c: char)
    ensures ClassMatches(c, IdentPart, true) <==> IsAsciiLetter(c) || IsAsciiDigit(c) || c == '_'
  {
    var s := SwapCase(c);
    var digitOrUnderscore := Union(Range('0', '9'), Range('_', '_'));
    assert InClass(c, digitOrUnderscore) <==> IsAsciiDigit(c) || c == '_';
    assert InClass(s, digitOrUnderscore) <==> IsAsciiDigit(s) || s == '_';
    assert InClass(c, IdentPart) <==> IsAsciiLower(c) || IsAsciiDigit(c) || c == '_';
    assert InClass(s, IdentPart) <==> IsAsciiLower(s) || IsAsciiDigit(s) || s == '_';
  }

  /** Only the first two characters are ever examined. */
  lemma IsAlphaNumIgnoresTail(word: string, tail: string)
    requires |word| >= 2
    ensures IsAlphaNum(word + tail) == IsAlphaNum(word)
    ensures IsAlphaNum(word) == IsAlphaNum(word[..2])
  {
    IsAlphaNumIff(word + tail);
    IsAlphaNumIff(word);
    IsAlphaNumIff(word[..2]);
  }

  /** The empty string and every one-character string are rejected. */
  lemma IsAlphaNumTooShort(word: string)
    requires |word| < 2
    ensures !IsAlphaNum(word)
  {
    IsAlphaNumIff(word);
  }

  /** True when the name carries the legacy one-letter prefix, as in `CWidget` or `IShape`. */
  predicate HasLegacyPrefix(className: string) {
    MatchesPrefix(LegacyPrefixPattern, className, false)
  }

  lemma HasLegacyPrefixIff(className: string)
    ensures HasLegacyPrefix(className) <==>
      |className| >= 2 && (className[0] == 'I' || className[0] == 'C') && IsAsciiUpper(className[1])
  {
    assert LegacyPrefixPattern[1..] == [Range('A', 'Z')];
    assert LegacyPrefixPattern[1..][1..] == [];
    if |className| >= 2 {
      assert className[1..][0] == className[1];
      assert MatchesPrefix(LegacyPrefixPattern[1..], className[1..], false) <==> IsAsciiUpper(className[1]);
      var c := className[0];
      var ic := Union(Range('I', 'I'), Range('C', 'C'));
      assert LegacyPrefixPattern[0] == ic;
      assert InClass(c, Range('I', 'I')) <==> c == 'I';
      assert InClass(c, ic) <==> c == 'I' || c == 'C';
    } else if |className| == 1 {
      assert !MatchesPrefix(LegacyPrefixPattern[1..], className[1..], false);
    }
  }

  /** The part of the class name that names its files. */
  function FileStem(className: string): (stem: string)
    ensures |stem| <= |className| && stem == className[|className| - |stem|..]
  {
    HasLegacyPrefixIff(className);
    if HasLegacyPrefix(className) then className[1..] else className
  }

  /** getFileName: the header (`.h`) or source (`.cpp`) file name for a class. */
  function GetFileName(className: string, isSrcFile: bool): (name: string)
  {
    var ext := if isSrcFile then "cpp" else "h";
    FileStem(className) + "." + ext
  }

  /** Exactly the first character is dropped when, and only when, the legacy prefix is present. */
  lemma GetFileNameStem(className: string, isSrcFile: bool)
    ensures var ext := if isSrcFile then ".cpp" else ".h";
      GetFileName(className, isSrcFile) ==
        (if |className| >= 2 && (className[0] == 'I' || className[0] == 'C') && IsAsciiUpper(className[1])
         then className[1..] else className) + ext
  {
    HasLegacyPrefixIff(className);
  }

  /** Header and source names share their stem, differ in extension, and so never collide. */
  lemma FileNamePair(className: string)
    ensures var h, s := GetFileName(className, false), GetFileName(className, true);
      |h| >= 2 && |s| >= 4
      && h[..|h| - 2] == s[..|s| - 4] == FileStem(className)
      && h[|h| - 2..] == ".h" && s[|s| - 4..] == ".cpp"
      && h != s
  {
    var h, s := GetFileName(className, false), GetFileName(className, true);
    var stem := FileStem(className);
    assert h == stem + ".h";
    assert s == stem + ".cpp";
    assert h[|h| - 1] == 'h' != 'p' == s[|s| - 1];
  }

  /** The file names contain no character that the class name and the extension do not. */
  lemma GetFileNameChars(className: string, isSrcFile: bool, c: char)
    requires c in GetFileName(className, isSrcFile)
    ensures c in className || c in (if isSrcFile then ".cpp" else ".h")
  {
    var stem := FileStem(className);
    var ext := if isSrcFile then ".cpp" else ".h";
    assert GetFileName(className, isSrcFile) == stem + ext;
    if c in stem {
      var k :| 0 <= k < |stem| && stem[k] == c;
      assert className[|className| - |stem| + k] == c;
    }
  }

  /** Examples of the prefix rule. */
  lemma FileNameExamples()
    ensures GetFileName("CFoo", false) == "Foo.h"
    ensures GetFileName("CFoo", true) == "Foo.cpp"
    ensures GetFileName("IFoo", false) == "Foo.h"
    ensures GetFileName("Widget", false) == "Widget.h"
    ensures GetFileName("Cat", false) == "Cat.h"
  {
    GetFileNameStem("CFoo", false);
    GetFileNameStem("CFoo", true);
    GetFileNameStem("IFoo", false);
    GetFileNameStem("Widget", false);
    GetFileNameStem("Cat", false);
  }
}
