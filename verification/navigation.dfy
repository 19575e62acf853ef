/**
 * The navigation bar: the mobile menu's open flag, the section links with
 * their active highlight, and the theme toggle.
 */
module Navigation {

  /** A section link: the id of the section it scrolls to and its caption (the source calls it `label`). */
  datatype NavItem = NavItem(id: string, caption: string)

  /** The section links, in display order: six links, no two to the same section. */
  function NavItems(): (r: seq<NavItem>)
    ensures |r| == 6
    ensures DistinctIds(r)
  {
    [
      NavItem("home", "Home"),
      NavItem("about", "About"),
      NavItem("projects", "Projects"),
      NavItem("skills", "Skills"),
      NavItem("testimonials", "Testimonials"),
      NavItem("contact", "Contact")
    ]
  }

  /** No two links share an id. */
  predicate DistinctIds(items: seq<NavItem>) {
    forall i, j :: 0 <= i < j < |items| ==> items[i].id != items[j].id
  }

  /** The highlight flag of each link: `activeSection === item.id`. */
  function Highlights(items: seq<NavItem>, activeSection: string): (r: seq<bool>)
    ensures |r| == |items|
    ensures forall i :: 0 <= i < |r| ==> (r[i] <==> items[i].id == activeSection)
  {
    if items == [] then [] else [items[0].id == activeSection] + Highlights(items[1..], activeSection)
  }

  /** How many flags are set. */
  function CountSet(flags: seq<bool>): nat {
    if flags == [] then 0 else (if flags[0] then 1 else 0) + CountSet(flags[1..])
  }

  /** Some link has id `activeSection`. */
  predicate HasId(items: seq<NavItem>, activeSection: string) {
    exists i :: 0 <= i < |items| && items[i].id == activeSection
  }

  /**
   * With distinct ids, exactly one link is highlighted when the active
   * section is one of theirs, and none otherwise.
   */
  lemma {:induction false} OneHighlight(items: seq<NavItem>, activeSection: string)
    requires DistinctIds(items)
    ensures CountSet(Highlights(items, activeSection)) == if HasId(items, activeSection) then 1 else 0
  {
    if items != [] {
      var rest := items[1..];
      assert DistinctIds(rest) by {
        forall i, j | 0 <= i < j < |rest| ensures rest[i].id != rest[j].id {
          assert rest[i] == items[i + 1] && rest[j] == items[j + 1];
        }
      }
      OneHighlight(rest, activeSection);
      var h := Highlights(items, activeSection);
      assert h[1..] == Highlights(rest, activeSection);
      if items[0].id == activeSection {
        forall j | 0 <= j < |rest| ensures rest[j].id != activeSection {
          assert rest[j] == items[j + 1];
        }
        assert HasId(items, activeSection) by { assert items[0].id == activeSection; }
      } else {
        if HasId(items, activeSection) {
          var j :| 0 <= j < |items| && items[j].id == activeSection;
          assert rest[j - 1].id == activeSection;
        }
        if HasId(rest, activeSection) {
          var j :| 0 <= j < |rest| && rest[j].id == activeSection;
          assert items[j + 1].id == activeSection;
        }
      }
    }
  }

  /** The shipped links have distinct ids, so at most one of them is ever highlighted. */
  lemma NavHighlightsAtMostOne(activeSection: string)
    ensures CountSet(Highlights(NavItems(), activeSection)) <= 1
  {
    OneHighlight(NavItems(), activeSection);
  }

  /** The theme button: "light" becomes "dark", and every other value becomes "light". */
  function ToggledTheme(theme: string): (r: string)
    ensures r == "light" || r == "dark"
    ensures r == "dark" <==> theme == "light"
  {
    if theme == "light" then "dark" else "light"
  }

  /** Between "light" and "dark", two presses restore the theme. */
  lemma ThemeTogglesBack(theme: string)
    requires theme == "light" || theme == "dark"
    ensures ToggledTheme(ToggledTheme(theme)) == theme
  {
  }

  /**
   * The bar's state: the mobile menu flag, and the theme it reads from and
   * writes to the theme provider.
   */
  class NavigationBar {
    var isOpen: bool
    var theme: string

    constructor (theme: string)
      ensures !isOpen && this.theme == theme
    {
      isOpen := false;
      this.theme := theme;
    }

    /** The hamburger button: `setIsOpen(!isOpen)`. */
    method ToggleMenu()
      modifies this
      ensures isOpen == !old(isOpen)
      ensures theme == old(theme)
    {
      isOpen := !isOpen;
    }

    /**
     * `scrollToSection`: scrolls when an element with that id exists
     * (`present` holds the ids in the document), and closes the menu either way.
     */
    method ScrollToSection(sectionId: string, present: set<string>) returns (scrolled: bool)
      modifies this
      ensures !isOpen
      ensures scrolled <==> sectionId in present
      ensures theme == old(theme)
    {
      scrolled := sectionId in present;
      isOpen := false;
    }

    /** The theme button. */
    method ToggleTheme()
      modifies this
      ensures theme == ToggledTheme(old(theme))
      ensures isOpen == old(isOpen)
    {
      theme := ToggledTheme(theme);
    }
  }

  /** Two presses of the hamburger button restore the menu. */
  method ToggleMenuTwice(bar: NavigationBar)
    modifies bar
    ensures bar.isOpen == old(bar.isOpen) && bar.theme == old(bar.theme)
  {
    bar.ToggleMenu();
    bar.ToggleMenu();
  }
}
