/** The header link of `src/components/HeaderNavLink.tsx`: to the calendar from every other page,
    and back to the language's top page from the calendar pages. */
module HeaderNav {
  import opened Common
  import opened Strings

  /** `/{lang}/calendar`. */
  function CalendarBase(lang: Lang): (r: string)
    ensures |r| == 12 && r[..3] == "/" + LangCode(lang)
  {
    "/" + LangCode(lang) + "/calendar"
  }

  /** `isCalendarPage`: the calendar page itself or a page below it. */
  predicate IsCalendarPage(lang: Lang, pathname: string) {
    pathname == CalendarBase(lang) || StartsWith(pathname, CalendarBase(lang) + "/")
  }

  /** Which of the two copy strings labels the link. */
  datatype NavLabel = TopLabel | CalendarTitle

  datatype NavLink = NavLink(href: string, caption: NavLabel)

  /** The link for `usePathname() ?? "/{lang}"`. */
  function HeaderNavLink(lang: Lang, pathname: Option<string>): NavLink {
    var path := pathname.GetOr("/" + LangCode(lang));
    if IsCalendarPage(lang, path) then NavLink("/" + LangCode(lang), TopLabel)
    else NavLink(CalendarBase(lang), CalendarTitle)
  }

  /** A calendar page is one whose path starts with the calendar base and ends there or continues
      with a new segment: the prefix has to end on a segment boundary. */
  lemma IsCalendarPageSegment(lang: Lang, pathname: string)
    ensures IsCalendarPage(lang, pathname) <==>
      StartsWith(pathname, CalendarBase(lang)) &&
      (|pathname| == 12 || pathname[12] == '/')
  {
    var base := CalendarBase(lang);
    if StartsWith(pathname, base) && |pathname| > 12 && pathname[12] == '/' {
      assert pathname[..13] == base + "/";
    }
    if StartsWith(pathname, base) && |pathname| == 12 {
      assert pathname == pathname[..12];
    }
    if StartsWith(pathname, base + "/") {
      assert pathname[..12] == (base + "/")[..12];
    }
  }

  /** `/ja/calendars` starts with `/ja/calendar` but is not a calendar page. */
  lemma CalendarsIsNotCalendarPage()
    ensures StartsWith("/ja/calendars", CalendarBase(Ja))
    ensures !IsCalendarPage(Ja, "/ja/calendars")
  {
    IsCalendarPageSegment(Ja, "/ja/calendars");
    assert "/ja/calendars"[12] == 's';
    assert "/ja/calendars"[..12] == "/ja/calendar";
  }

  /** On a calendar page the link leads to the top page with the "top" label; elsewhere to the
      calendar with the calendar title. Either way it never leads to the page it is shown on. */
  lemma HeaderNavLinkLeadsAway(lang: Lang, pathname: string)
    ensures IsCalendarPage(lang, pathname) <==> HeaderNavLink(lang, Some(pathname)).caption == TopLabel
    ensures HeaderNavLink(lang, Some(pathname)).caption == TopLabel <==>
      HeaderNavLink(lang, Some(pathname)).href == "/" + LangCode(lang)
    ensures HeaderNavLink(lang, Some(pathname)).href != pathname
  {
    var top := "/" + LangCode(lang);
    assert CalendarBase(lang) != top;
    if IsCalendarPage(lang, pathname) {
      IsCalendarPageSegment(lang, pathname);
      assert |pathname| >= 12;
    }
  }

  /** With no path known the page counts as the top page `/{lang}`, which is not a calendar page, so
      the link leads to the calendar. */
  lemma MissingPathLeadsToCalendar(lang: Lang)
    ensures !IsCalendarPage(lang, "/" + LangCode(lang))
    ensures HeaderNavLink(lang, None) == NavLink(CalendarBase(lang), CalendarTitle)
  {
    var top := "/" + LangCode(lang);
    assert |top| == 3;
  }
}
