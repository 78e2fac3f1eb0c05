/** The links of `src/components/LanguageToggle.tsx`: the current path moved under the other
    language's prefix, with the query string carried along. */
module LanguageToggle {
  import opened Common
  import opened Strings

  /** The language a two-letter path segment names, if any. */
  function LangOfCode(code: string): (r: Option<Lang>)
    ensures r.Some? ==> LangCode(r.value) == code
  {
    if code == "ja" then Some(Ja) else if code == "ko" then Some(Ko) else None
  }

  /** `/^\/(ja|ko)(?=\/|$)/` matches: the path starts with `/ja` or `/ko`, followed by `/` or by
      nothing. */
  predicate HasLangPrefix(pathname: string) {
    |pathname| >= 3 && pathname[0] == '/' && LangOfCode(pathname[1..3]).Some? &&
    (|pathname| == 3 || pathname[3] == '/')
  }

  /** The path is already under `lang`'s prefix. */
  predicate UnderLang(pathname: string, lang: Lang) {
    HasLangPrefix(pathname) && pathname[1..3] == LangCode(lang)
  }

  /** `pathname.replace(/^\/(ja|ko)(?=\/|$)/, "/" + nextLang)`. */
  function Replaced(pathname: string, nextLang: Lang): string {
    if HasLangPrefix(pathname) then "/" + LangCode(nextLang) + pathname[3..] else pathname
  }

  /** `swapLang` as written: "nothing was replaced" is detected by comparing the replaced path with
      the original, so a path already under `nextLang` also falls back to `/{nextLang}`. */
  function SwapLangAsWritten(pathname: string, nextLang: Lang): string {
    var replaced := Replaced(pathname, nextLang);
    if replaced == pathname then "/" + LangCode(nextLang) else replaced
  }

  /** `swapLang` as its comment describes it: the fallback `/{nextLang}` only for a path that is not
      under `/ja` or `/ko`. */
  function SwapLang(pathname: string, nextLang: Lang): string {
    if HasLangPrefix(pathname) then Replaced(pathname, nextLang) else "/" + LangCode(nextLang)
  }

  /** The replacement leaves the path as it was exactly when there is no prefix or the prefix already
      names `nextLang`. */
  lemma ReplacedUnchangedIff(pathname: string, nextLang: Lang)
    ensures Replaced(pathname, nextLang) == pathname <==> !HasLangPrefix(pathname) || UnderLang(pathname, nextLang)
  {
    var code := LangCode(nextLang);
    if HasLangPrefix(pathname) {
      var r := "/" + code + pathname[3..];
      assert r[1..3] == code;
      if pathname[1..3] == code {
        assert pathname == [pathname[0]] + pathname[1..3] + pathname[3..];
      }
    }
  }

  /** The two versions differ exactly on a path under `nextLang` with more after the prefix, which
      the version as written sends to the language's top page: `/ko/calendar` to `/ko`. */
  lemma SwapLangAsWrittenCollapses(pathname: string, nextLang: Lang)
    ensures UnderLang(pathname, nextLang) ==> SwapLangAsWritten(pathname, nextLang) == "/" + LangCode(nextLang)
    ensures SwapLangAsWritten(pathname, nextLang) != SwapLang(pathname, nextLang) <==>
      UnderLang(pathname, nextLang) && |pathname| > 3
  {
    ReplacedUnchangedIff(pathname, nextLang);
    if UnderLang(pathname, nextLang) {
      SwapLangStays(pathname, nextLang);
    }
  }

  /** The input that shows the difference. */
  lemma SwapLangAsWrittenCounterexample()
    ensures SwapLangAsWritten("/ko/calendar", Ko) == "/ko"
    ensures SwapLang("/ko/calendar", Ko) == "/ko/calendar"
  {
    var p := "/ko/calendar";
    assert p[1..3] == "ko" && p[3] == '/';
    assert UnderLang(p, Ko);
    SwapLangAsWrittenCollapses(p, Ko);
    SwapLangStays(p, Ko);
  }

  /** Switching to the language a path is already under keeps the path. */
  lemma SwapLangStays(pathname: string, lang: Lang)
    requires UnderLang(pathname, lang)
    ensures SwapLang(pathname, lang) == pathname
  {
    ReplacedUnchangedIff(pathname, lang);
  }

  /** Both versions always give a path under `nextLang`: `/{nextLang}` followed by nothing or by `/`. */
  lemma SwapLangUnderTarget(pathname: string, nextLang: Lang)
    ensures UnderLang(SwapLang(pathname, nextLang), nextLang)
    ensures UnderLang(SwapLangAsWritten(pathname, nextLang), nextLang)
    ensures StartsWith(SwapLang(pathname, nextLang), "/" + LangCode(nextLang))
    ensures StartsWith(SwapLangAsWritten(pathname, nextLang), "/" + LangCode(nextLang))
  {
    var code := LangCode(nextLang);
    var top := "/" + code;
    assert top[1..3] == code && |top| == 3;
    assert LangOfCode(code) == Some(nextLang);
    if HasLangPrefix(pathname) {
      var r := "/" + code + pathname[3..];
      assert r[1..3] == code && r[..3] == top;
      assert |r| == 3 || r[3] == pathname[3];
    }
  }

  /** A path under a prefix keeps everything after it; any other path gives `/{nextLang}`. */
  lemma SwapLangKeepsRest(pathname: string, nextLang: Lang)
    ensures HasLangPrefix(pathname) ==> SwapLang(pathname, nextLang)[3..] == pathname[3..]
    ensures !HasLangPrefix(pathname) ==>
      SwapLang(pathname, nextLang) == SwapLangAsWritten(pathname, nextLang) == "/" + LangCode(nextLang)
  {
    if HasLangPrefix(pathname) {
      var r := "/" + LangCode(nextLang) + pathname[3..];
      assert r[3..] == pathname[3..];
    }
  }

  /** Only the last switch counts, and switching back to the language a path was under restores it. */
  lemma SwapLangRoundTrip(pathname: string, a: Lang, b: Lang)
    ensures SwapLang(SwapLang(pathname, a), b) == SwapLang(pathname, b)
    ensures UnderLang(pathname, b) ==> SwapLang(SwapLang(pathname, a), b) == pathname
  {
    SwapLangUnderTarget(pathname, a);
    SwapLangKeepsRest(pathname, a);
    SwapLangKeepsRest(SwapLang(pathname, a), b);
    var mid := SwapLang(pathname, a);
    if !HasLangPrefix(pathname) {
      assert mid[3..] == [];
    }
    if UnderLang(pathname, b) {
      SwapLangStays(pathname, b);
    }
  }

  /** The paths of the examples: `/ja/calendar` becomes `/ko/calendar`; `/`, `/jap` and `/en/x` have
      no language prefix and become `/ko`. */
  lemma SwapLangExamples()
    ensures SwapLang("/ja/calendar", Ko) == SwapLangAsWritten("/ja/calendar", Ko) == "/ko/calendar"
    ensures SwapLangAsWritten("/", Ko) == "/ko"
    ensures SwapLangAsWritten("/jap", Ko) == "/ko"
    ensures SwapLangAsWritten("/en/x", Ko) == "/ko"
  {
    var p := "/ja/calendar";
    assert p[1..3] == "ja" && p[3] == '/';
    assert "/ko" + p[3..] == "/ko/calendar";
    assert !HasLangPrefix("/jap") by {
      assert "/jap"[3] == 'p';
    }
    assert !HasLangPrefix("/en/x") by {
      assert "/en/x"[1..3] == "en";
    }
  }

  /** `qs ? base + "?" + qs : base`, with `None` for a missing `searchParams`. */
  function WithQuery(base: string, qs: Option<string>): string {
    if qs.Some? && qs.value != "" then base + "?" + qs.value else base
  }

  /** The base is kept in front; a `?` and the query follow exactly when the query is non-empty. */
  lemma WithQueryCharacterized(base: string, qs: Option<string>)
    ensures WithQuery(base, qs)[..|base|] == base
    ensures |WithQuery(base, qs)| == |base| <==> qs.None? || qs.value == ""
    ensures qs.Some? && qs.value != "" ==>
      WithQuery(base, qs)[|base|] == '?' && WithQuery(base, qs)[|base| + 1..] == qs.value
  {
    if qs.Some? && qs.value != "" {
      var r := base + "?" + qs.value;
      assert r[..|base|] == base && r[|base| + 1..] == qs.value;
    }
  }

  /** The same base is recovered from a link: appending the query never makes two bases alike. */
  lemma WithQueryInjective(a: string, b: string, qs: Option<string>)
    requires WithQuery(a, qs) == WithQuery(b, qs)
    ensures a == b
  {
    WithQueryCharacterized(a, qs);
    WithQueryCharacterized(b, qs);
    assert |a| == |b|;
  }

  /** The two links the toggle renders. */
  datatype Links = Links(toJa: string, toKo: string)

  /** The link to `lang`. */
  function LinkTo(links: Links, lang: Lang): string {
    if lang == Ja then links.toJa else links.toKo
  }

  /** The toggle's links, from `usePathname() ?? "/"` and the query string, through `swapLang` as
      it is written. */
  function LanguageLinks(pathname: Option<string>, qs: Option<string>): Links {
    var path := pathname.GetOr("/");
    Links(WithQuery(SwapLangAsWritten(path, Ja), qs), WithQuery(SwapLangAsWritten(path, Ko), qs))
  }

  /** Where each rendered link leads: under its language, with the query. A page under the other
      language keeps the rest of its path; a page without a prefix, no path at all, and a page
      already under the link's language all lead to that language's top page, so on `/ko/calendar`
      the KO link is `/ko`. */
  lemma LanguageLinksLead(pathname: Option<string>, qs: Option<string>, lang: Lang)
    ensures var path := pathname.GetOr("/");
      var to := LinkTo(LanguageLinks(pathname, qs), lang);
      var top := "/" + LangCode(lang);
      && to == WithQuery(SwapLangAsWritten(path, lang), qs)
      && UnderLang(SwapLangAsWritten(path, lang), lang)
      && (HasLangPrefix(path) && !UnderLang(path, lang) ==> to == WithQuery(top + path[3..], qs))
      && (UnderLang(path, lang) ==> to == WithQuery(top, qs))
      && (!HasLangPrefix(path) ==> to == WithQuery(top, qs))
      && (pathname.None? ==> to == WithQuery(top, qs))
  {
    var path := pathname.GetOr("/");
    SwapLangUnderTarget(path, lang);
    SwapLangAsWrittenCollapses(path, lang);
    ReplacedUnchangedIff(path, lang);
    SwapLangKeepsRest(path, lang);
    assert !HasLangPrefix("/");
  }

  /** The links with the corrected `swapLang`, which keeps a page already under a language. */
  function LanguageLinksCorrected(pathname: Option<string>, qs: Option<string>): Links {
    var path := pathname.GetOr("/");
    Links(WithQuery(SwapLang(path, Ja), qs), WithQuery(SwapLang(path, Ko), qs))
  }

  /** With the correction, each link leads under its language and keeps the query; the link of the
      language the page is under leads back to the page itself; with no path the links are the two
      top pages. */
  lemma LanguageLinksCorrectedLead(pathname: Option<string>, qs: Option<string>, lang: Lang)
    ensures var to := LinkTo(LanguageLinksCorrected(pathname, qs), lang);
      && to == WithQuery(SwapLang(pathname.GetOr("/"), lang), qs)
      && UnderLang(SwapLang(pathname.GetOr("/"), lang), lang)
      && (pathname.Some? && UnderLang(pathname.value, lang) ==> to == WithQuery(pathname.value, qs))
      && (pathname.None? ==> to == WithQuery("/" + LangCode(lang), qs))
  {
    SwapLangUnderTarget(pathname.GetOr("/"), lang);
    if pathname.Some? && UnderLang(pathname.value, lang) {
      SwapLangStays(pathname.value, lang);
    }
  }

  /** The rendered links differ from the corrected ones exactly on a page under `/ja` or `/ko` with
      more after the prefix. */
  lemma LanguageLinksDiffer(pathname: Option<string>, qs: Option<string>)
    ensures var path := pathname.GetOr("/");
      LanguageLinks(pathname, qs) != LanguageLinksCorrected(pathname, qs) <==>
        HasLangPrefix(path) && |path| > 3
  {
    var path := pathname.GetOr("/");
    SwapLangAsWrittenCollapses(path, Ja);
    SwapLangAsWrittenCollapses(path, Ko);
    if WithQuery(SwapLangAsWritten(path, Ja), qs) == WithQuery(SwapLang(path, Ja), qs) {
      WithQueryInjective(SwapLangAsWritten(path, Ja), SwapLang(path, Ja), qs);
    }
    if WithQuery(SwapLangAsWritten(path, Ko), qs) == WithQuery(SwapLang(path, Ko), qs) {
      WithQueryInjective(SwapLangAsWritten(path, Ko), SwapLang(path, Ko), qs);
    }
    if HasLangPrefix(path) {
      assert UnderLang(path, Ja) || UnderLang(path, Ko);
    }
  }
}
