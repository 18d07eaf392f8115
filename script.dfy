/**
 The page script itself: one object holding the document state that the
 handlers of script.js update in place. Each method is proved to move the
 state exactly as the matching transition of `View` says.
 */
module Script {
  import opened Catalog
  import opened Navigation
  import opened View

  class Site {
    /** The `.page` regions, in document order. */
    var pages: seq<Page>
    /** The `.nav-link` elements, in document order. */
    var navLinks: seq<NavLink>
    /** Whether the mobile navigation panel has the `open` class. */
    var menuOpen: bool
    /** The address fragment. */
    var hash: string
    /** The project modal. */
    var modal: Modal
    /** The body's `overflow` style. */
    var overflow: string
    /** The tiles of `#featured-grid` and of `#projects-grid`. */
    var featuredGrid: seq<Card>
    var projectsGrid: seq<Card>
    /** The project catalog, fixed for the life of the page. */
    const catalog: seq<Project>

    /** The state as a value. */
    function State(): Dom
      reads this
    {
      Dom(pages, navLinks, menuOpen, hash, modal, overflow, featuredGrid, projectsGrid)
    }

    /** The document as loaded, before the script has run. */
    constructor (d: Dom, catalog: seq<Project>)
      ensures State() == d && this.catalog == catalog
    {
      pages, navLinks, menuOpen, hash := d.pages, d.navLinks, d.menuOpen, d.hash;
      modal, overflow := d.modal, d.overflow;
      featuredGrid, projectsGrid := d.featuredGrid, d.projectsGrid;
      this.catalog := catalog;
    }

    /** `document.getElementById(target)` among the pages: the position of
        the first page with that id, or `|pages|` when there is none. The
        empty string is no element's id. */
    method FindPage(target: string) returns (k: nat)
      ensures k <= |pages|
      ensures k < |pages| ==> FirstWithId(pages, k, target)
      ensures k == |pages| ==> forall j :: 0 <= j < |pages| ==> !FirstWithId(pages, j, target)
      ensures k == |pages| && target != "" ==> forall j :: 0 <= j < |pages| ==> pages[j].id != target
      ensures target == "" ==> k == |pages|
    {
      if target == "" {
        return |pages|;
      }
      k := 0;
      while k < |pages| && pages[k].id != target
        invariant k <= |pages|
        invariant forall j :: 0 <= j < k ==> pages[j].id != target
      {
        k := k + 1;
      }
    }

    /** `pages.forEach(p => p.classList.remove('active'))`. */
    method ClearPages()
      modifies this
      ensures State() == old(State()).(pages := Deactivated(old(pages)))
    {
      ghost var before := State();
      var k := 0;
      while k < |pages|
        invariant k <= |pages| == |before.pages|
        invariant forall j :: 0 <= j < |pages| ==> pages[j].id == before.pages[j].id
        invariant forall j :: 0 <= j < k ==> !pages[j].active
        invariant State() == before.(pages := pages)
      {
        pages := pages[k := pages[k].(active := false)];
        k := k + 1;
      }
      assert pages == Deactivated(before.pages);
    }

    /** `navLinks.forEach(t => t.classList.remove('active'))`. */
    method ClearLinks()
      modifies this
      ensures |navLinks| == |old(navLinks)|
      ensures forall j :: 0 <= j < |navLinks| ==> navLinks[j] == old(navLinks[j]).(active := false)
      ensures State() == old(State()).(navLinks := navLinks)
    {
      ghost var before := State();
      var k := 0;
      while k < |navLinks|
        invariant k <= |navLinks| == |before.navLinks|
        invariant forall j :: 0 <= j < k ==> navLinks[j] == before.navLinks[j].(active := false)
        invariant forall j :: k <= j < |navLinks| ==> navLinks[j] == before.navLinks[j]
        invariant State() == before.(navLinks := navLinks)
      {
        navLinks := navLinks[k := navLinks[k].(active := false)];
        k := k + 1;
      }
    }

    /** The loop that adds `active` to every link whose target is `target`. */
    method MarkLinks(target: string)
      modifies this
      ensures |navLinks| == |old(navLinks)|
      ensures forall j :: 0 <= j < |navLinks| ==>
                navLinks[j] == old(navLinks[j]).(active := old(navLinks[j].active) || old(navLinks[j].target) == target)
      ensures State() == old(State()).(navLinks := navLinks)
    {
      ghost var before := State();
      var k := 0;
      while k < |navLinks|
        invariant k <= |navLinks| == |before.navLinks|
        invariant forall j :: 0 <= j < k ==>
                    navLinks[j] == before.navLinks[j].(active := before.navLinks[j].active || before.navLinks[j].target == target)
        invariant forall j :: k <= j < |navLinks| ==> navLinks[j] == before.navLinks[j]
        invariant State() == before.(navLinks := navLinks)
      {
        if navLinks[k].target == target {
          navLinks := navLinks[k := navLinks[k].(active := true)];
        }
        k := k + 1;
      }
    }

    /** `switchPage(target)`. */
    method SwitchPage(target: string)
      modifies this
      ensures State() == Switched(old(State()), target)
    {
      ghost var before := State();
      ClearPages();
      ClearLinks();
      var found := FindPage(target);
      if found < |pages| {
        pages := pages[found := pages[found].(active := true)];
      }
      MarkLinks(target);
      menuOpen := false;
      hash := "#" + target;
      ghost var expected := ActivatePage(before.pages, target);
      assert |pages| == |expected|;
      forall j | 0 <= j < |pages|
        ensures pages[j] == expected[j]
      {
        assert FirstWithId(before.pages, j, target) <==> j == found;
      }
      assert pages == expected;
      assert navLinks == HighlightLinks(before.navLinks, target);
    }

    /** A click on navigation link `k` switches to its target, which then
        carries `active`. */
    method ClickNavLink(k: nat)
      requires k < |navLinks|
      modifies this
      ensures State() == Switched(old(State()), old(navLinks[k].target))
      ensures navLinks[k].active
    {
      SwitchPage(navLinks[k].target);
    }

    /** A click on the logo goes to the home page. */
    method ClickLogo()
      modifies this
      ensures State() == Switched(old(State()), Home)
    {
      SwitchPage(Home);
    }

    /** The hamburger click. */
    method ToggleMenu()
      modifies this
      ensures State() == MenuToggled(old(State()))
    {
      menuOpen := !menuOpen;
    }

    /** The `hashchange` event, once the browser holds fragment `h`. */
    method HashChange(h: string)
      modifies this
      ensures State() == HashChanged(old(State()), h)
    {
      hash := h;
      var target := Route(hash);
      SwitchPage(target);
    }

    /** `renderFeatured()`. */
    method RenderFeatured()
      modifies this
      ensures State() == FeaturedRendered(old(State()), catalog)
    {
      ghost var before := State();
      featuredGrid := [];
      var list := Featured(catalog);
      ghost var all := Cards(list);
      var i := 0;
      while i < |list|
        invariant i <= |list|
        invariant featuredGrid == all[..i]
        invariant State() == before.(featuredGrid := featuredGrid)
      {
        featuredGrid := featuredGrid + [CreateCard(list[i], i)];
        i := i + 1;
      }
      assert featuredGrid == all;
    }

    /** `renderProjects()`. */
    method RenderProjects()
      modifies this
      ensures State() == ProjectsRendered(old(State()), catalog)
    {
      ghost var before := State();
      ghost var all := Cards(catalog);
      projectsGrid := [];
      var i := 0;
      while i < |catalog|
        invariant i <= |catalog|
        invariant projectsGrid == all[..i]
        invariant State() == before.(projectsGrid := projectsGrid)
      {
        projectsGrid := projectsGrid + [CreateCard(catalog[i], i)];
        i := i + 1;
      }
      assert projectsGrid == all;
    }

    /** `openModal(p, i)`. */
    method OpenModal(p: Project, i: nat)
      modifies this
      ensures State() == ModalOpened(old(State()), p, i)
    {
      modal := modal.(heroBackground := Background(p.heroImage, i));
      modal := modal.(title := p.title, subtitle := p.subtitle);
      modal := modal.(description := p.description, pdfHref := p.pdfUrl);
      modal := modal.(open := true, ariaHidden := "false");
      overflow := "hidden";
    }

    /** `closeModal()`, also the close button's click. */
    method CloseModal()
      modifies this
      ensures State() == ModalClosed(old(State()))
    {
      modal := modal.(open := false, ariaHidden := "true");
      overflow := "";
    }

    /** A click on tile `k` of the home grid (`featured`) or of the listing
        grid opens the modal for the record and index the tile was made
        from. */
    method ClickCard(featured: bool, k: nat)
      requires k < if featured then |featuredGrid| else |projectsGrid|
      modifies this
      ensures var c := if featured then old(featuredGrid[k]) else old(projectsGrid[k]);
              State() == ModalOpened(old(State()), c.project, c.index)
    {
      var c := if featured then featuredGrid[k] else projectsGrid[k];
      OpenModal(c.project, c.index);
    }

    /** A key press in the document. */
    method KeyDown(key: string)
      modifies this
      ensures State() == KeyPressed(old(State()), key)
    {
      if key == "Escape" && modal.open {
        CloseModal();
      }
    }

    /** A key press on tile `k`: the tile's own handler opens the modal on
        Enter, then the press bubbles up to the document's handler. */
    method CardKeyDown(featured: bool, k: nat, key: string)
      requires k < if featured then |featuredGrid| else |projectsGrid|
      modifies this
      ensures var c := if featured then old(featuredGrid[k]) else old(projectsGrid[k]);
              State() == KeyPressed(if key == "Enter" then ModalOpened(old(State()), c.project, c.index) else old(State()), key)
    {
      if key == "Enter" {
        ClickCard(featured, k);
      }
      KeyDown(key);
    }

    /** A click that reaches the modal; `onBackdrop` says whether its target
        is the modal element itself. */
    method ClickModal(onBackdrop: bool)
      modifies this
      ensures State() == ModalClicked(old(State()), onBackdrop)
    {
      if onBackdrop {
        CloseModal();
      }
    }

    /** The start-up code at the end of the script. */
    method Init()
      modifies this
      ensures State() == Loaded(old(State()), catalog)
    {
      RenderFeatured();
      RenderProjects();
      var initial := Route(hash);
      if initial != Home {
        SwitchPage(initial);
      }
    }
  }
}
