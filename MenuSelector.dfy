/**
 * The menu selector: the drop-down that starts on the menu named in the
 * current path and, when another menu is chosen, navigates to that menu's
 * page under the current locale.
 */
module MenuSelector {
  import opened Wrappers
  import opened Strings

  /** One entry of the drop-down: the value it selects, its displayed label (`caption`), and the page it leads to. */
  datatype MenuOption = MenuOption(value: string, caption: string, path: string)

  const MenuOptions: seq<MenuOption> := [
    MenuOption("breakfast", "Breakfast Menu", "/breakfast-menu"),
    MenuOption("lunch", "Lunch Menu", "/lunch-menu"),
    MenuOption("dinner", "Dinner Menu", "/dinner-menu")
  ]

  const FallbackLocale := "en-us"

  /** The page name of an option, as the substring tests look for it: its path without the leading slash. */
  function PageName(o: MenuOption): string {
    if |o.path| >= 1 then o.path[1..] else o.path
  }

  /** The selection the drop-down starts with, decided from substrings of the path in a fixed order. */
  function InitialSelection(pathname: string): (selected: string)
    ensures exists o :: o in MenuOptions && o.value == selected
  {
    if Includes(pathname, "breakfast-menu") then "breakfast"
    else if Includes(pathname, "lunch-menu") then "lunch"
    else if Includes(pathname, "dinner-menu") then "dinner"
    else "breakfast"
  }

  /** `options.find(opt => opt.value === value)`: the first option with that value. */
  function FindOption(options: seq<MenuOption>, value: string): (r: Option<MenuOption>)
    ensures r.Some? ==> r.value in options && r.value.value == value
    ensures r.None? <==> forall o :: o in options ==> o.value != value
  {
    if options == [] then None
    else if options[0].value == value then Some(options[0])
    else FindOption(options[1..], value)
  }

  /** `pathname.split('/')[1] || 'en-us'`: the first path segment, or the fallback when it is empty or missing. */
  function LocaleOf(pathname: string): (locale: string)
    ensures locale != [] && '/' !in locale
  {
    var parts := Split(pathname, '/');
    if |parts| > 1 && parts[1] != "" then parts[1] else FallbackLocale
  }

  /** What choosing a value does: the new selection state, and the page navigated to, if any. */
  datatype Change = Change(selected: string, target: Option<string>)

  /** The change handler: the selection always follows the choice; only a known option navigates. */
  function HandleChange(pathname: string, value: string): (c: Change)
    ensures c.selected == value
    ensures c.target.None? <==> forall o :: o in MenuOptions ==> o.value != value
    ensures c.target.Some? ==> exists o :: o in MenuOptions && o.value == value && c.target.value == "/" + LocaleOf(pathname) + o.path
  {
    match FindOption(MenuOptions, value)
    case Some(option) => Change(value, Some("/" + LocaleOf(pathname) + option.path))
    case None => Change(value, None)
  }

  /** The first option, in drop-down order, whose page name occurs in the path. */
  function FirstNamedIn(options: seq<MenuOption>, pathname: string): (r: Option<MenuOption>)
    ensures r.Some? ==> r.value in options
  {
    if options == [] then None
    else if Includes(pathname, PageName(options[0])) then Some(options[0])
    else FirstNamedIn(options[1..], pathname)
  }

  /**
   * The fixed order of the substring tests is the order of the drop-down:
   * the selection is the first option whose page name occurs in the path,
   * or the first option when none does.
   */
  lemma InitialSelectionFollowsOptions(pathname: string)
    ensures InitialSelection(pathname) ==
      match FirstNamedIn(MenuOptions, pathname)
      case Some(o) => o.value
      case None => MenuOptions[0].value
  {
    var options := MenuOptions;
    assert PageName(options[0]) == "breakfast-menu";
    assert PageName(options[1..][0]) == "lunch-menu";
    assert PageName(options[1..][1..][0]) == "dinner-menu";
    assert options[1..][1..][1..] == [];
    assert FirstNamedIn(options[1..][1..], pathname) ==
      if Includes(pathname, "dinner-menu") then Some(options[2]) else None;
    assert FirstNamedIn(options[1..], pathname) ==
      if Includes(pathname, "lunch-menu") then Some(options[1]) else FirstNamedIn(options[1..][1..], pathname);
  }

  /** Breakfast beats lunch and lunch beats dinner when several page names occur. */
  lemma InitialSelectionPriority(pathname: string)
    ensures Includes(pathname, "breakfast-menu") ==> InitialSelection(pathname) == "breakfast"
    ensures InitialSelection(pathname) == "lunch" <==> !Includes(pathname, "breakfast-menu") && Includes(pathname, "lunch-menu")
    ensures InitialSelection(pathname) == "dinner" <==>
      !Includes(pathname, "breakfast-menu") && !Includes(pathname, "lunch-menu") && Includes(pathname, "dinner-menu")
  {
  }

  /** A path that starts with a non-empty, slash-free segment has that segment as its locale. */
  lemma LocaleOfPrefixed(locale: string, rest: string)
    requires locale != [] && '/' !in locale
    requires rest == [] || rest[0] == '/'
    ensures LocaleOf("/" + locale + rest) == locale
  {
    var p := "/" + locale + rest;
    var tail := Split(locale + rest, '/');
    assert p == [] + ['/'] + (locale + rest);
    SplitAtFirst([], '/', locale + rest);
    assert Split(p, '/') == [[]] + tail;
    if rest == [] {
      assert locale + rest == locale;
      assert tail == [locale];
    } else {
      assert locale + rest == locale + ['/'] + rest[1..];
      SplitAtFirst(locale, '/', rest[1..]);
      assert tail[0] == locale;
    }
    assert Split(p, '/')[1] == locale;
  }

  /** Without a non-empty first segment the locale falls back to the default. */
  lemma LocaleOfFallback(pathname: string)
    requires '/' !in pathname || pathname == "/" || (|pathname| >= 2 && pathname[..2] == "//")
    ensures LocaleOf(pathname) == FallbackLocale
  {
    if pathname == "/" {
      assert pathname == [] + ['/'] + [];
      SplitAtFirst([], '/', []);
    } else if '/' in pathname {
      assert pathname == [] + ['/'] + ([] + ['/'] + pathname[2..]);
      SplitAtFirst([], '/', [] + ['/'] + pathname[2..]);
      SplitAtFirst([], '/', pathname[2..]);
    }
  }

  /** A slash-free name that occurs on neither side of a slash does not occur in the joined text. */
  lemma NotIncludedSep(a: string, b: string, t: string)
    requires '/' !in t
    requires !Includes(a, t) && !Includes(b, t)
    ensures !Includes(a + ['/'] + b, t)
  {
    IncludesIff(a, t);
    IncludesIff(b, t);
    IncludesIff(a + ['/'] + b, t);
    forall i: nat ensures !OccursAt(a + ['/'] + b, t, i) {
      if OccursAt(a + ['/'] + b, t, i) {
        OccursAcross(a, '/', b, t, i);
        assert false;
      }
    }
  }

  /** The locale segment names no menu page. */
  predicate NamesNoPage(locale: string) {
    !Includes(locale, "breakfast-menu") && !Includes(locale, "lunch-menu") && !Includes(locale, "dinner-menu")
  }

  /** A page name is found in the target built from it. */
  lemma NameInTarget(locale: string, name: string)
    ensures Includes("/" + locale + "/" + name, name)
  {
    var target := "/" + locale + "/" + name;
    IncludesIff(target, name);
    assert OccursAt(target, name, |locale| + 2);
  }

  /** A slash-free text found in neither the locale nor the page name is not found in the target. */
  lemma NotInTarget(locale: string, name: string, t: string)
    requires '/' !in t && t != []
    requires !Includes(locale, t) && !Includes(name, t)
    ensures !Includes("/" + locale + "/" + name, t)
  {
    assert !Includes([], t);
    assert "/" + locale == [] + ['/'] + locale;
    NotIncludedSep([], locale, t);
    assert "/" + locale + "/" + name == ("/" + locale) + ['/'] + name;
    NotIncludedSep("/" + locale, name, t);
  }

  lemma DinnerPageNamesNoLunch()
    ensures !Includes("dinner-menu", "lunch-menu")
  {
    NotOccursAt("dinner-menu", "lunch-menu", 0);
    NotOccursAt("dinner-menu", "lunch-menu", 1);
  }

  /** On the page of a menu, the selector starts on that menu. */
  lemma SelectsBreakfast(locale: string)
    ensures InitialSelection("/" + locale + "/" + "breakfast-menu") == "breakfast"
  {
    NameInTarget(locale, "breakfast-menu");
  }

  lemma SelectsLunch(locale: string)
    requires NamesNoPage(locale)
    ensures InitialSelection("/" + locale + "/" + "lunch-menu") == "lunch"
  {
    NameInTarget(locale, "lunch-menu");
    NotInTarget(locale, "lunch-menu", "breakfast-menu");
  }

  lemma SelectsDinner(locale: string)
    requires NamesNoPage(locale)
    ensures InitialSelection("/" + locale + "/" + "dinner-menu") == "dinner"
  {
    NameInTarget(locale, "dinner-menu");
    NotInTarget(locale, "dinner-menu", "breakfast-menu");
    DinnerPageNamesNoLunch();
    NotInTarget(locale, "dinner-menu", "lunch-menu");
  }

  /** The page a known option navigates to: the locale segment, then the option's page name. */
  lemma NavigationTarget(pathname: string, value: string) returns (name: string)
    requires exists o :: o in MenuOptions && o.value == value
    ensures name == PageName(FindOption(MenuOptions, value).value)
    ensures HandleChange(pathname, value).target == Some("/" + LocaleOf(pathname) + "/" + name)
  {
    var o := FindOption(MenuOptions, value).value;
    name := PageName(o);
    assert o.path == "/" + name;
    assert "/" + LocaleOf(pathname) + "/" + name == ("/" + LocaleOf(pathname)) + o.path;
  }

  /** Choosing a known option keeps the locale of the current page. */
  lemma NavigationKeepsLocale(pathname: string, value: string)
    requires exists o :: o in MenuOptions && o.value == value
    ensures HandleChange(pathname, value).target.Some?
    ensures LocaleOf(HandleChange(pathname, value).target.value) == LocaleOf(pathname)
  {
    var name := NavigationTarget(pathname, value);
    assert "/" + LocaleOf(pathname) + "/" + name == "/" + LocaleOf(pathname) + ("/" + name);
    LocaleOfPrefixed(LocaleOf(pathname), "/" + name);
  }

  /**
   * Choosing a known option navigates to a page on which the selector
   * starts on that option again, as long as the locale itself names no
   * menu page.
   */
  lemma NavigationRoundTrip(pathname: string, value: string)
    requires exists o :: o in MenuOptions && o.value == value
    requires NamesNoPage(LocaleOf(pathname))
    ensures HandleChange(pathname, value).target.Some?
    ensures InitialSelection(HandleChange(pathname, value).target.value) == value
  {
    var locale := LocaleOf(pathname);
    var name := NavigationTarget(pathname, value);
    if value == "breakfast" {
      assert name == "breakfast-menu";
      SelectsBreakfast(locale);
    } else if value == "lunch" {
      assert name == "lunch-menu";
      SelectsLunch(locale);
    } else {
      assert name == "dinner-menu";
      SelectsDinner(locale);
    }
  }
}
