/**
 * The language resolver of the festival rules page (`Rules.translation`): a
 * requested language code, or the ambient current language when none is
 * requested, is lower-cased and mapped onto a language that has a rules
 * document, English being the fallback. It never fails.
 */
module Rules {
  import opened Base

  /** Rules.LANGUAGES: the languages with a rules document, and that document. */
  const Languages: map<string, string> :=
    map["be" := "rules_ru.md", "ru" := "rules_ru.md", "en" := "rules_en.md"]

  /** Rules.RTL: the right-to-left languages. */
  const Rtl: set<string> := {"ar"}

  /** The language used for any code without a rules document. */
  const Fallback: string := "en"

  /** `str.lower` on the letters that matter here: ASCII upper case to lower case. */
  function LowerChar(c: char): char {
    if 'A' <= c <= 'Z' then (c as int + 32) as char else c
  }

  /** Each upper-case letter becomes its lower-case form; every other
      character is kept. */
  function Lower(s: string): (r: string)
    ensures |r| == |s| && IsLower(r)
    ensures forall i :: 0 <= i < |s| && 'A' <= s[i] <= 'Z' ==> r[i] as int == s[i] as int + 32
    ensures forall i :: 0 <= i < |s| && !('A' <= s[i] <= 'Z') ==> r[i] == s[i]
  {
    seq(|s|, i requires 0 <= i < |s| => LowerChar(s[i]))
  }

  predicate IsLower(s: string) {
    forall i :: 0 <= i < |s| ==> !('A' <= s[i] <= 'Z')
  }

  /** `posixpath.join(a, b)`: an absolute `b` wins, otherwise a separator is
      inserted unless `a` is empty or already ends with one. */
  function Join(a: string, b: string): string {
    if |b| > 0 && b[0] == '/' then b
    else if a == [] || a[|a| - 1] == '/' then a + b
    else a + "/" + b
  }

  /** Joining a relative `b` keeps `a` as a prefix and `b` as a suffix, with
      exactly one separator between them when `a` is not empty; an absolute
      `b` replaces `a`. */
  lemma JoinProperties(a: string, b: string)
    ensures |b| > 0 && b[0] == '/' ==> Join(a, b) == b
    ensures !(|b| > 0 && b[0] == '/') ==>
              var r := Join(a, b);
              && |r| == |a| + |b| + (if a == [] || a[|a| - 1] == '/' then 0 else 1)
              && a <= r && r[|r| - |b|..] == b
              && (|r| > |b| ==> r[|r| - |b| - 1] == '/')
  {
  }

  /** Rules.PATH: the `docs` directory of the application root. */
  function DocsDir(appRoot: string): string {
    Join(appRoot, "docs")
  }

  /** The `docs` directory lies directly under the application root: the root
      is a prefix, the last component is `docs`, and a separator stands
      between them unless the root is empty. */
  lemma DocsDirShape(appRoot: string)
    ensures var d := DocsDir(appRoot);
            && |appRoot| + 4 <= |d| <= |appRoot| + 5 && appRoot <= d && d[|d| - 4..] == "docs"
            && (appRoot != [] ==> d[|d| - 5] == '/')
            && (appRoot == [] ==> d == "docs")
  {
    JoinProperties(appRoot, "docs");
  }

  /** What `Rules.translation` returns: the language, the path of its rules
      document and whether the page is right-to-left. */
  datatype Resolved = Resolved(lang: string, rules: string, rtl: bool)

  /** `Rules.translation(lang)`: the result is always a lower-case language
      with a rules document, the path of that document under the `docs`
      directory, and a right-to-left flag that is never set, because no
      right-to-left language has a rules document. */
  function Translation(requested: Option<string>, currentLanguage: string, appRoot: string): (r: Resolved)
    ensures r.lang in Languages && IsLower(r.lang)
    ensures r.rules == DocsDir(appRoot) + "/" + Languages[r.lang]
    ensures r.rtl == (r.lang in Rtl) && !r.rtl
  {
    var code := Lower(requested.GetOr(currentLanguage));
    var lang := if code in Languages then code else Fallback;
    Resolved(lang, Join(DocsDir(appRoot), Languages[lang]), lang in Rtl)
  }

  /** Without a requested code the ambient current language is resolved. */
  lemma NoneUsesCurrentLanguage(currentLanguage: string, appRoot: string)
    ensures Translation(None, currentLanguage, appRoot) == Translation(Some(currentLanguage), currentLanguage, appRoot)
  {
  }

  /** Lower-casing twice is lower-casing once. */
  lemma LowerIdempotent(s: string)
    ensures Lower(Lower(s)) == Lower(s) && IsLower(Lower(s))
  {
  }

  /** Resolution ignores case: a code and its lower-case form resolve alike. */
  lemma CaseInsensitive(code: string, currentLanguage: string, appRoot: string)
    ensures Translation(Some(code), currentLanguage, appRoot) == Translation(Some(Lower(code)), currentLanguage, appRoot)
  {
    LowerIdempotent(code);
  }

  /** A code lower-cases to the two-letter word `[a, b]` exactly when it has
      two characters, each the letter or its upper-case form. */
  lemma LowerIsPair(s: string, a: char, b: char)
    requires 'a' <= a <= 'z' && 'a' <= b <= 'z'
    ensures Lower(s) == [a, b] <==>
            |s| == 2 && (s[0] == a || s[0] as int == a as int - 32) && (s[1] == b || s[1] as int == b as int - 32)
  {
    if |s| == 2 && Lower(s) == [a, b] {
      assert Lower(s)[0] == LowerChar(s[0]) && Lower(s)[1] == LowerChar(s[1]);
      assert Lower(s)[0] == a && Lower(s)[1] == b;
    }
    if |s| == 2 && (s[0] == a || s[0] as int == a as int - 32) && (s[1] == b || s[1] as int == b as int - 32) {
      assert Lower(s)[0] == a && Lower(s)[1] == b;
    }
  }

  /** Which codes resolve to which language: Russian for the four spellings of
      `ru`, Belarusian for the four spellings of `be`, English for every other
      code. */
  lemma ResolvedLanguage(code: string, currentLanguage: string, appRoot: string)
    ensures var lang := Translation(Some(code), currentLanguage, appRoot).lang;
      && (lang == "ru" <==> |code| == 2 && code[0] in "rR" && code[1] in "uU")
      && (lang == "be" <==> |code| == 2 && code[0] in "bB" && code[1] in "eE")
      && (lang == "en" <==> !(|code| == 2 && code[0] in "rR" && code[1] in "uU") &&
                            !(|code| == 2 && code[0] in "bB" && code[1] in "eE"))
  {
    LowerIsPair(code, 'r', 'u');
    LowerIsPair(code, 'b', 'e');
    LowerIsPair(code, 'e', 'n');
    assert "ru" == ['r', 'u'] && "be" == ['b', 'e'] && "en" == ['e', 'n'];
  }

  /** Belarusian and Russian share the Russian rules document. */
  lemma BelarusianSharesRussianRules(currentLanguage: string, appRoot: string)
    ensures Translation(Some("be"), currentLanguage, appRoot).rules ==
            Translation(Some("ru"), currentLanguage, appRoot).rules
  {
    assert Lower("be") == "be" && Lower("ru") == "ru";
  }

  /** The documented outcomes: `RU` resolves to Russian, an unknown code to
      English, and no code under a Russian interface to Russian. */
  lemma ResolutionExamples(appRoot: string)
    ensures Translation(Some("RU"), "en", appRoot).lang == "ru"
    ensures Translation(Some("XX"), "ru", appRoot).lang == "en"
    ensures Translation(None, "ru", appRoot).lang == "ru"
  {
    ResolvedLanguage("RU", "en", appRoot);
    ResolvedLanguage("XX", "ru", appRoot);
    ResolvedLanguage("ru", "ru", appRoot);
  }
}
