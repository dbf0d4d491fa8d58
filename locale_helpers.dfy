/** The locale chosen for each request: an explicit locale (the `locale` parameter, else
    the `X-Locale` header) when it is available, else the first language of the
    `Accept-Language` header when that is available, else the default locale. Locales
    are their names; the available set and the default are parameters. */
module LocaleHelpers {
  import opened Wrappers
  import opened RubyStrings

  /** What `set_locale` reads from the request; `None` for an absent value. */
  datatype LocaleRequest = LocaleRequest(
    localeParam: Option<string>, xLocale: Option<string>, acceptLanguage: Option<string>)

  /** `extract_locale_from_params`: `params[:locale] || request.headers['X-Locale']`, used
      only if it is an available locale. Any given parameter, even an empty one, shadows
      the header. */
  function ExtractLocaleFromParams(req: LocaleRequest, available: set<string>): Option<string> {
    var localeParam := if req.localeParam.Some? then req.localeParam else req.xLocale;
    if localeParam.None? then None
    else if localeParam.value in available then localeParam
    else None
  }

  /** `accept_language.split(',').first&.split('-')&.first`. */
  function FirstLanguage(acceptLanguage: string): Option<string> {
    match SplitFirst(acceptLanguage, ',')
    case None => None
    case Some(item) => SplitFirst(item, '-')
  }

  /** `extract_locale_from_header`. */
  function ExtractLocaleFromHeader(acceptLanguage: Option<string>, available: set<string>,
                                   defaultLocale: string): string
  {
    if acceptLanguage.None? then defaultLocale
    else
      var first := FirstLanguage(acceptLanguage.value);
      if first.Some? && first.value in available then first.value else defaultLocale
  }

  /** `extract_locale_from_params || extract_locale_from_header`. */
  function RequestedLocale(req: LocaleRequest, available: set<string>, defaultLocale: string): Option<string> {
    match ExtractLocaleFromParams(req, available)
    case Some(l) => Some(l)
    case None => Some(ExtractLocaleFromHeader(req.acceptLanguage, available, defaultLocale))
  }

  /** The global `I18n` configuration, as far as `set_locale` changes it. */
  class I18nConfig {
    var locale: string

    constructor(locale: string)
      ensures this.locale == locale
    {
      this.locale := locale;
    }
  }

  /** `set_locale`: assigns the requested locale when there is one. */
  method SetLocale(i18n: I18nConfig, req: LocaleRequest, available: set<string>, defaultLocale: string)
    modifies i18n
    ensures RequestedLocale(req, available, defaultLocale).Some? ==>
      i18n.locale == RequestedLocale(req, available, defaultLocale).value
    ensures RequestedLocale(req, available, defaultLocale).None? ==> i18n.locale == old(i18n.locale)
  {
    var requested := RequestedLocale(req, available, defaultLocale);
    if requested.Some? {
      i18n.locale := requested.value;
    }
  }

  /** An explicit locale is an available one, taken from the parameter when there is
      one and from `X-Locale` only when there is none. */
  lemma ExplicitLocaleSpec(req: LocaleRequest, available: set<string>)
    ensures var r := ExtractLocaleFromParams(req, available);
      && (r.Some? ==> r.value in available)
      && (req.localeParam.Some? ==> (r.Some? <==> req.localeParam.value in available))
      && (r.Some? ==> r == req.localeParam || (req.localeParam.None? && r == req.xLocale))
      && (req.localeParam.None? && req.xLocale.Some? && req.xLocale.value in available ==> r == req.xLocale)
  {
  }

  /** A given parameter shadows `X-Locale` even when the parameter names no available
      locale: the header is then not consulted at all. */
  lemma ParamShadowsXLocale(req: LocaleRequest, available: set<string>, x: Option<string>)
    requires req.localeParam.Some?
    ensures ExtractLocaleFromParams(req, available) == ExtractLocaleFromParams(req.(xLocale := x), available)
  {
  }

  /** The header rule yields an available locale or the default, the default exactly when
      the header is missing or its first language is unavailable. */
  lemma HeaderLocaleSpec(acceptLanguage: Option<string>, available: set<string>, defaultLocale: string)
    ensures var l := ExtractLocaleFromHeader(acceptLanguage, available, defaultLocale);
      && (l in available || l == defaultLocale)
      && (acceptLanguage.None? ==> l == defaultLocale)
      && (acceptLanguage.Some? && FirstLanguage(acceptLanguage.value).Some?
          && FirstLanguage(acceptLanguage.value).value in available ==>
            l == FirstLanguage(acceptLanguage.value).value)
  {
  }

  /** The first language is a prefix of the header that holds neither a comma nor a
      hyphen. */
  lemma FirstLanguageSpec(acceptLanguage: string)
    ensures var f := FirstLanguage(acceptLanguage);
      f.Some? ==>
        && |f.value| <= |acceptLanguage|
        && f.value == acceptLanguage[..|f.value|]
        && ',' !in f.value && '-' !in f.value
  {
    match SplitFirst(acceptLanguage, ',')
    case None =>
    case Some(item) =>
      var n := FieldEnd(acceptLanguage, ',');
      assert item == acceptLanguage[..n];
      match SplitFirst(item, '-')
      case None =>
      case Some(lang) =>
        var m := FieldEnd(item, '-');
        assert lang == item[..m];
        assert lang == acceptLanguage[..m];
        assert forall i :: 0 <= i < |lang| ==> lang[i] == item[i];
  }

  /** A browser header yields its first language without the region. */
  lemma FirstLanguageExamples()
    ensures FirstLanguage("en-US,en;q=0.9") == Some("en")
    ensures FirstLanguage("ru") == Some("ru")
  {
    FirstItemEnUs();
    FirstLanguageOfItem("en-US");
    FirstLanguageOfRu();
  }

  lemma FirstItemEnUs()
    ensures SplitFirst("en-US,en;q=0.9", ',') == Some("en-US")
  {
    SplitFirstOfJoin("en-US", ',', "en;q=0.9");
    assert "en-US" + [','] + "en;q=0.9" == "en-US,en;q=0.9";
  }

  lemma FirstLanguageOfItem(item: string)
    requires item == "en-US"
    ensures SplitFirst(item, '-') == Some("en")
  {
    SplitFirstOfJoin("en", '-', "US");
    assert "en" + ['-'] + "US" == item;
  }

  /** The first field of a non-empty, separator-free `a` followed by the separator is `a`. */
  lemma SplitFirstOfJoin(a: string, sep: char, b: string)
    requires |a| > 0 && sep !in a
    ensures SplitFirst(a + [sep] + b, sep) == Some(a)
  {
    var s := a + [sep] + b;
    assert s[0] == a[0] != sep;
    FieldEndOfJoin(a, sep, b);
    assert s[..|a|] == a;
  }

  lemma {:induction false} FieldEndOfJoin(a: string, sep: char, b: string)
    requires sep !in a
    ensures FieldEnd(a + [sep] + b, sep) == |a|
  {
    var s := a + [sep] + b;
    if |a| == 0 {
      assert s[0] == sep;
    } else {
      assert s[0] == a[0];
      assert s[1..] == a[1..] + [sep] + b;
      FieldEndOfJoin(a[1..], sep, b);
    }
  }

  lemma FirstLanguageOfRu()
    ensures FirstLanguage("ru") == Some("ru")
  {
    assert "ru"[0] != ',' && "ru"[0] != '-';
    assert FieldEnd("ru", ',') == 2 by {
      assert "ru"[1..][1..] == "";
    }
    assert FieldEnd("ru", '-') == 2 by {
      assert "ru"[1..][1..] == "";
    }
    assert "ru"[..2] == "ru";
  }

  /** An empty header, or a first item that starts with a hyphen, has no usable first
      language; a lone hyphen has none at all. */
  lemma FirstLanguageEdgeCases()
    ensures FirstLanguage("").None?
    ensures FirstLanguage("-US") == Some("")
    ensures FirstLanguage("-").None?
  {
    assert FieldEnd("-US", ',') == 3 by {
      assert "-US"[1..][1..][1..] == "";
    }
    assert "-US"[..3] == "-US";
    assert FieldEnd("-US", '-') == 0;
    assert "-US"[..0] == "";
  }

  /** `set_locale` always assigns: the requested locale is never `nil`, it is an
      available locale or the default, and an available explicit locale wins over
      `Accept-Language`. */
  lemma RequestedLocaleSpec(req: LocaleRequest, available: set<string>, defaultLocale: string)
    ensures var r := RequestedLocale(req, available, defaultLocale);
      && r.Some?
      && (r.value in available || r.value == defaultLocale)
      && (ExtractLocaleFromParams(req, available).Some? ==> r == ExtractLocaleFromParams(req, available))
      && (ExtractLocaleFromParams(req, available).None? ==>
            r.value == ExtractLocaleFromHeader(req.acceptLanguage, available, defaultLocale))
  {
    ExplicitLocaleSpec(req, available);
    HeaderLocaleSpec(req.acceptLanguage, available, defaultLocale);
  }
}
