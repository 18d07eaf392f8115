/**
 The page as plain data and the effect of each handler of script.js on it.
 Each transition is the specification that the corresponding method of
 `Script.Site` is proved against; the lemmas state what the handlers
 promise about one another.
 */
module View {
  import opened Catalog
  import opened Navigation

  /** The project modal: its `open` class, its `aria-hidden` attribute and
      the content of its parts. */
  datatype Modal = Modal(
    open: bool,
    ariaHidden: string,
    title: string,
    subtitle: string,
    description: string,
    pdfHref: string,
    heroBackground: string)

  /** Everything of the document that the script reads or writes. */
  datatype Dom = Dom(
    pages: seq<Page>,
    navLinks: seq<NavLink>,
    menuOpen: bool,
    hash: string,
    modal: Modal,
    overflow: string,
    featuredGrid: seq<Card>,
    projectsGrid: seq<Card>)

  /** The modal is shut and the body scrolls again. */
  predicate ModalShut(d: Dom)
  {
    !d.modal.open && d.modal.ariaHidden == "true" && d.overflow == ""
  }

  /** `switchPage(t)`. */
  function Switched(d: Dom, t: string): (r: Dom)
    ensures |r.pages| == |d.pages| && |r.navLinks| == |d.navLinks|
    ensures forall k :: 0 <= k < |d.pages| ==> r.pages[k].id == d.pages[k].id
    ensures forall k :: 0 <= k < |d.pages| ==> (r.pages[k].active <==> FirstWithId(d.pages, k, t))
    ensures forall k :: 0 <= k < |d.navLinks| ==> r.navLinks[k].target == d.navLinks[k].target
    ensures forall k :: 0 <= k < |d.navLinks| ==> (r.navLinks[k].active <==> d.navLinks[k].target == t)
    ensures !r.menuOpen && r.hash == "#" + t
    ensures r.modal == d.modal && r.overflow == d.overflow
    ensures r.featuredGrid == d.featuredGrid && r.projectsGrid == d.projectsGrid
  {
    d.(pages := ActivatePage(d.pages, t),
       navLinks := HighlightLinks(d.navLinks, t),
       menuOpen := false,
       hash := "#" + t)
  }

  /** The hamburger click: the mobile menu's `open` class is toggled. */
  function MenuToggled(d: Dom): (r: Dom)
    ensures r.menuOpen != d.menuOpen
    ensures r.(menuOpen := d.menuOpen) == d
  {
    d.(menuOpen := !d.menuOpen)
  }

  /** `openModal(p, i)`. */
  function ModalOpened(d: Dom, p: Project, i: nat): (r: Dom)
    ensures r.modal.open && r.modal.ariaHidden == "false" && r.overflow == "hidden"
    ensures r.modal.title == p.title && r.modal.subtitle == p.subtitle
    ensures r.modal.description == p.description && r.modal.pdfHref == p.pdfUrl
    ensures r.modal.heroBackground == Background(p.heroImage, i)
    ensures p.heroImage == "" ==> r.modal.heroBackground == Gradients[i % |Gradients|]
    ensures p.heroImage != "" ==> r.modal.heroBackground == CoverUrl(p.heroImage)
    ensures IsFallback(r.modal.heroBackground) <==> p.heroImage == ""
    ensures r.pages == d.pages && r.navLinks == d.navLinks
    ensures r.menuOpen == d.menuOpen && r.hash == d.hash
    ensures r.featuredGrid == d.featuredGrid && r.projectsGrid == d.projectsGrid
  {
    d.(modal := Modal(true, "false", p.title, p.subtitle, p.description, p.pdfUrl, Background(p.heroImage, i)),
       overflow := "hidden")
  }

  /** `closeModal()`. The modal keeps the content it last showed. */
  function ModalClosed(d: Dom): (r: Dom)
    ensures ModalShut(r)
    ensures r.modal.(open := d.modal.open, ariaHidden := d.modal.ariaHidden) == d.modal
    ensures r.(modal := d.modal, overflow := d.overflow) == d
  {
    d.(modal := d.modal.(open := false, ariaHidden := "true"), overflow := "")
  }

  /** A key press anywhere in the document. */
  function KeyPressed(d: Dom, key: string): (r: Dom)
    ensures r.modal.open <==> d.modal.open && key != "Escape"
    ensures r.pages == d.pages && r.navLinks == d.navLinks && r.hash == d.hash
    ensures !d.modal.open ==> r == d
  {
    if key == "Escape" && d.modal.open then ModalClosed(d) else d
  }

  /** A click inside the modal; `onBackdrop` says whether the event's
      target is the modal element itself rather than one of its parts. */
  function ModalClicked(d: Dom, onBackdrop: bool): (r: Dom)
    ensures r.modal.open <==> d.modal.open && !onBackdrop
    ensures onBackdrop ==> r == ModalClosed(d)
    ensures !onBackdrop ==> r == d
  {
    if onBackdrop then ModalClosed(d) else d
  }

  /** `renderFeatured()`: the home grid holds one tile per featured record,
      indexed by its position among the featured records. */
  function FeaturedRendered(d: Dom, catalog: seq<Project>): (r: Dom)
    ensures r.featuredGrid == Cards(Featured(catalog))
    ensures |r.featuredGrid| == |Featured(catalog)|
    ensures forall k :: 0 <= k < |r.featuredGrid| ==> r.featuredGrid[k].project.featured
    ensures r.(featuredGrid := d.featuredGrid) == d
  {
    d.(featuredGrid := Cards(Featured(catalog)))
  }

  /** `renderProjects()`: the listing grid holds one tile per record. */
  function ProjectsRendered(d: Dom, catalog: seq<Project>): (r: Dom)
    ensures r.projectsGrid == Cards(catalog)
    ensures |r.projectsGrid| == |catalog|
    ensures forall k :: 0 <= k < |catalog| ==> r.projectsGrid[k].project == catalog[k] && r.projectsGrid[k].index == k
    ensures r.(projectsGrid := d.projectsGrid) == d
  {
    d.(projectsGrid := Cards(catalog))
  }

  /** The `hashchange` handler, once the browser holds fragment `h`. */
  function HashChanged(d: Dom, h: string): (r: Dom)
    ensures r == Switched(d, Route(h))
    ensures r.hash == "#" + Route(h)
  {
    Switched(d.(hash := h), Route(h))
  }

  /** The start-up sequence: both grids are rendered, then the page named by
      the fragment is shown unless that page is `Home`. */
  function Loaded(d: Dom, catalog: seq<Project>): (r: Dom)
    ensures r.featuredGrid == Cards(Featured(catalog)) && r.projectsGrid == Cards(catalog)
    ensures Route(d.hash) == Home ==> r == d.(featuredGrid := Cards(Featured(catalog)), projectsGrid := Cards(catalog))
    ensures Route(d.hash) != Home ==>
              r == Switched(d.(featuredGrid := Cards(Featured(catalog)), projectsGrid := Cards(catalog)), Route(d.hash))
    ensures Route(d.hash) == Home ==> r.pages == d.pages && r.hash == d.hash
    ensures Route(d.hash) != Home ==> r.pages == ActivatePage(d.pages, Route(d.hash))
  {
    var rendered := ProjectsRendered(FeaturedRendered(d, catalog), catalog);
    var target := Route(d.hash);
    if target != Home then Switched(rendered, target) else rendered
  }

  /** Switching twice to the same target is the same as switching once. */
  lemma SwitchIdempotent(d: Dom, t: string)
    ensures Switched(Switched(d, t), t) == Switched(d, t)
  {
  }

  /** After a switch the fragment reads back as the target, so a later
      `hashchange` to the written fragment changes nothing. */
  lemma SwitchThenHashChange(d: Dom, t: string)
    requires t != ""
    ensures Route(Switched(d, t).hash) == t
    ensures HashChanged(Switched(d, t), Switched(d, t).hash) == Switched(d, t)
  {
  }

  /** A switch closes the mobile menu whatever its state, so toggling the
      menu before a switch makes no difference. */
  lemma SwitchAfterToggle(d: Dom, t: string)
    ensures Switched(MenuToggled(d), t) == Switched(d, t)
  {
  }

  /** Two hamburger clicks restore the state. */
  lemma ToggleInvolution(d: Dom)
    ensures MenuToggled(MenuToggled(d)) == d
  {
  }

  /** Opening then closing the modal from a shut state returns every part of
      the state to what it was, except the modal's content, which keeps
      the last opened project. */
  lemma OpenThenCloseRestores(d: Dom, p: Project, i: nat)
    requires ModalShut(d)
    ensures ModalShut(ModalClosed(ModalOpened(d, p, i)))
    ensures ModalClosed(ModalOpened(d, p, i)).(modal := d.modal) == d
  {
  }

  /** Closing is idempotent. */
  lemma CloseIdempotent(d: Dom)
    ensures ModalClosed(ModalClosed(d)) == ModalClosed(d)
  {
  }

  /** Escape closes an open modal exactly as the close button does, and
      any other key leaves the state alone. */
  lemma EscapeIsClose(d: Dom, key: string)
    ensures key == "Escape" && d.modal.open ==> KeyPressed(d, key) == ModalClosed(d)
    ensures key != "Escape" ==> KeyPressed(d, key) == d
  {
  }

  /** A click on the backdrop closes the modal exactly as the close button
      does, and a click on the modal's content leaves the state alone. */
  lemma BackdropIsClose(d: Dom)
    ensures ModalClicked(d, true) == ModalClosed(d)
    ensures ModalClicked(d, false) == d
    ensures ModalShut(ModalClicked(d, true))
  {
  }

  /** Rendering clears the grid first, so rendering again gives the same
      grid whatever the grid held. */
  lemma RenderIdempotent(d: Dom, catalog: seq<Project>)
    ensures FeaturedRendered(FeaturedRendered(d, catalog), catalog) == FeaturedRendered(d, catalog)
    ensures ProjectsRendered(ProjectsRendered(d, catalog), catalog) == ProjectsRendered(d, catalog)
  {
  }

  /** A well-formed fragment survives start-up unchanged, and the page it
      names is the one shown, when page ids are unique. */
  lemma LoadKeepsFragment(d: Dom, catalog: seq<Project>, t: string)
    requires t != "" && t != Home && d.hash == "#" + t
    requires UniqueIds(d.pages)
    ensures Loaded(d, catalog).hash == d.hash
    ensures forall k :: 0 <= k < |d.pages| ==> (Loaded(d, catalog).pages[k].active <==> d.pages[k].id == t)
  {
  }
}
