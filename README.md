# Portfolio page script — verified model

This project models the page script of a single-page portfolio site
(`script.js`). The script does three things:

- **Page switching.** `switchPage` clears `active` on every page and every
  navigation link. It then marks the page that an id lookup finds and every
  link whose `data-target` is the target. It closes the mobile menu and
  writes the fragment `#target`. The handlers for clicks, the logo and
  `hashchange` all call it.
- **Tile rendering.** The featured records and all records are each turned
  into a grid of tiles. A tile's background is the thumbnail when there is
  one. Otherwise it is one of six fallback gradients, picked by the tile's
  position in the list being rendered.
- **Project modal.** A tile opens the modal with its record's content. The
  close button, Escape and a click on the backdrop close it. The hamburger
  button toggles the mobile menu.

The document is reduced to plain data:

- ordered pages, each an `id` and an `active` flag;
- ordered links, each a `target` and an `active` flag;
- the menu flag and the fragment;
- the modal's flags and content;
- the body's `overflow` style;
- the two grids of tiles.

The modules are:

- `Catalog` (`catalog.dfy`): project records, the gradients, the background
  rule, tiles and the featured filter.
- `Navigation` (`navigation.dfy`): the page and link updates of a switch, and
  reading a page identifier from a fragment.
- `View` (`view.dfy`): the whole state as a value (`Dom`), each handler's
  effect as a function on it, and lemmas relating the handlers.
- `Script` (`script.dfy`): class `Site`. Its fields are the state, and its
  methods update them in place with the source's loops. Each method is
  proved to move `State()` exactly as the matching `View` function says.

Points of the code's behaviour that the model keeps exactly:

- **Unknown target.** A switch to a target that no page has as its id is
  not ignored: every page and every link is still cleared, so no page is
  left active (`Navigation.UnknownTargetBlanks`).
- **Empty target.** An id lookup for the empty string finds nothing, even
  when some page has an empty id. A switch to `""` leaves no page active
  (`Navigation.EmptyTargetBlanks`).
- **Duplicate ids.** An id lookup returns only the first element with that
  id. So only the first page whose id is the target becomes active
  (`Navigation.ActivatePage`, `Navigation.AtMostOneActive`). With unique
  ids, a page is active exactly when its id is the non-empty target
  (`Navigation.ActiveIffTarget`).
- **Links.** A link is active exactly when its `data-target` equals the
  switch target. There is no other rule: no link is marked because of a
  related page.
- **Featured tile index.** The featured grid indexes each tile by its
  position in the filtered list, not in the catalog
  (`Catalog.FeaturedPosition`). So a record's fallback gradient can differ
  between the two grids.

## Model

| member | source | states |
|---|---|---|
| `Catalog.Background` | script.js:160 | a non-empty image gives the cover-URL background; an empty one gives `Gradients[i % 6]`; the background is a gradient exactly when the image is empty |
| `Catalog.BackgroundCycles` | script.js:75-82 | the fallback gradient repeats with period six (the number of gradients) |
| `Catalog.CreateCard` | script.js:153-169 | the tile's background is `Background` of the thumbnail at the tile's index: the cover URL for a thumbnail, `Gradients[i % 6]` without one, and a gradient exactly when the thumbnail is empty; the tile shows the record's title and subtitle; activating it opens the record it was built from at the index it was built with |
| `Catalog.Cards` | script.js:182-184 | one tile per record, in order; tile `k` is built from record `k` with index `k` |
| `Catalog.CardsPrefix` | script.js:182-184 | the tiles for a prefix of the list are the prefix of the tiles |
| `Catalog.Featured` | script.js:174 | the filter keeps exactly the featured records and is no longer than the catalog |
| `Catalog.FeaturedAppend` | script.js:174 | the filter keeps catalog order: filtering a concatenation concatenates the filtered parts |
| `Catalog.FeaturedPosition` | script.js:174-176 | a featured record at catalog position `j` is the `n`-th featured record, where `n` counts the featured records before it, and its home tile is built with index `n` |
| `Catalog.FeaturedPrefix` | script.js:174 | when the first `n` records are featured and the rest are not, the featured list is the first `n` records |
| `Catalog.FeaturedCardsPrefix` | script.js:172-185 | under that ordering the home grid equals the first `n` tiles of the listing grid, with the same backgrounds |
| `Navigation.Deactivated` | script.js:102 | every page loses `active` and keeps its id |
| `Navigation.ActivatePage` | script.js:102-106 | after a switch to `t`, a page is active exactly when it is the first page whose id is `t`; ids are unchanged |
| `Navigation.HighlightLinks` | script.js:103-110 | after a switch to `t`, a link is active exactly when its target is `t`, whatever its earlier state; targets are unchanged |
| `Navigation.AtMostOneActive` | script.js:105-106 | after a switch at most one page is active, even when ids repeat |
| `Navigation.ActiveIffTarget` | script.js:102-106 | with unique page ids, a page is active after a switch exactly when the target is not empty and the page's id is the target |
| `Navigation.KnownTargetActivates` | script.js:105-106 | when some page has the non-empty target as its id, a page at or before it is active after the switch |
| `Navigation.UnknownTargetBlanks` | script.js:102-106 | when no page has the target as its id, no page is active after the switch |
| `Navigation.EmptyTargetBlanks` | script.js:105-106 | the empty target names no page, even one with an empty id, so a switch to it leaves no page active |
| `Navigation.ActivatePageIdempotent` | script.js:101-106 | activating the same target twice gives the same pages as once |
| `Navigation.HighlightLinksIdempotent` | script.js:108-110 | highlighting the same target twice gives the same links as once |
| `Navigation.IndexOf` | script.js:148 | the position of the first occurrence of the character, or the length when there is none |
| `Navigation.RemoveFirst` | script.js:148 | the string with only its first `#` removed, or unchanged when it has none |
| `Navigation.Route` | script.js:148 | the page identifier is the fragment without its first `#`, never empty, and `home` for an empty fragment or a bare `#` |
| `Navigation.RouteOfFragment` | script.js:116 | the fragment `"#" + t` written by a switch reads back as `t`, even when `t` holds `#`, and as `home` when `t` is empty |
| `Navigation.RouteKeepsLaterHashes` | script.js:222 | only the first `#` is removed: `a#b` reads as `ab` when `a` holds no `#` |
| `View.Switched` | script.js:101-117 | pages as `ActivatePage`; links as `HighlightLinks`; menu closed; fragment `"#" + t`; modal, overflow and grids unchanged |
| `View.MenuToggled` | script.js:141-143 | the menu flag flips and nothing else changes |
| `View.ModalOpened` | script.js:188-199 | the hero background is `Background` of the hero image at index `i`: the cover URL for an image, `Gradients[i % 6]` without one, and a gradient exactly when the image is empty; the modal shows the record's title, subtitle, description and PDF link; the modal is open, `aria-hidden` is `"false"` and overflow is `"hidden"`; pages, links, menu, fragment and grids are untouched |
| `View.ModalClosed` | script.js:203-207 | the modal is not open, `aria-hidden` is `"true"` and overflow is empty; the modal's content and everything else are unchanged |
| `View.KeyPressed` | script.js:213-215 | the modal stays open exactly when it was open and the key is not Escape; with the modal shut, no key changes anything |
| `View.ModalClicked` | script.js:210-212 | a click on the backdrop has exactly the effect of `closeModal`; a click on the modal's content changes nothing; the modal stays open exactly when it was open and the target is not the backdrop |
| `View.FeaturedRendered` | script.js:172-177 | the home grid is exactly the tiles of the featured records, one per record, tile `k` built with index `k`; every tile is of a featured record; nothing else changes |
| `View.ProjectsRendered` | script.js:180-185 | the listing grid is exactly the tiles of the catalog, tile `k` of record `k` with index `k`; nothing else changes |
| `View.HashChanged` | script.js:147-150 | a fragment change is a switch to the identifier the new fragment names |
| `View.Loaded` | script.js:217-223 | both grids are rendered; when the fragment names `home` nothing else changes; otherwise the state is the rendered state switched to the page the fragment names |
| `View.SwitchIdempotent` | script.js:101-117 | switching twice to the same target gives the same state as once |
| `View.SwitchThenHashChange` | script.js:116 | after a switch the fragment reads back as the target, and a `hashchange` to it changes nothing |
| `View.SwitchAfterToggle` | script.js:113 | a switch closes the menu whatever its state, so toggling the menu before it makes no difference |
| `View.ToggleInvolution` | script.js:141-143 | two hamburger clicks restore the state |
| `View.OpenThenCloseRestores` | script.js:188-207 | from a shut modal, opening then closing returns the open flag, `aria-hidden`, overflow and everything else to their earlier values; only the modal's content keeps the last record |
| `View.CloseIdempotent` | script.js:203-207 | closing twice is closing once |
| `View.EscapeIsClose` | script.js:213-215 | Escape on an open modal has exactly the close button's effect, and any other key changes nothing |
| `View.BackdropIsClose` | script.js:210-212 | a click on the backdrop closes the modal exactly as the close button does, and leaves it shut; a click on its content changes nothing |
| `View.RenderIdempotent` | script.js:172-185 | rendering clears the grid first, so rendering again gives the same state |
| `View.LoadKeepsFragment` | script.js:222-223 | with unique page ids, a start-up fragment `#t` (`t` not `home`) survives start-up, and the page shown is exactly the one with id `t` |
| `Script.Site.FindPage` | script.js:105 | the id lookup returns the first page whose id is the non-empty target; it returns the page count when no page matches, and always for the empty target |
| `Script.Site.ClearPages` | script.js:102 | the loop leaves the pages as `Deactivated` and nothing else changed |
| `Script.Site.ClearLinks` | script.js:103 | the loop clears `active` on every link and changes nothing else |
| `Script.Site.MarkLinks` | script.js:108-110 | the loop adds `active` exactly to the links whose target is the target, and changes nothing else |
| `Script.Site.SwitchPage` | script.js:101-117 | the new state is `View.Switched` of the old one |
| `Script.Site.ClickNavLink` | script.js:120-122 | a click on link `k` switches to its target, and link `k` is then active |
| `Script.Site.ClickLogo` | script.js:125-130 | a click on the logo switches to `home` |
| `Script.Site.ToggleMenu` | script.js:140-144 | the new state is `View.MenuToggled` of the old one |
| `Script.Site.HashChange` | script.js:147-150 | the new state is `View.HashChanged` of the old one |
| `Script.Site.RenderFeatured` | script.js:172-177 | the new state is `View.FeaturedRendered` of the old one |
| `Script.Site.RenderProjects` | script.js:180-185 | the new state is `View.ProjectsRendered` of the old one |
| `Script.Site.OpenModal` | script.js:188-201 | the new state is `View.ModalOpened` of the old one |
| `Script.Site.CloseModal` | script.js:203-209 | the new state is `View.ModalClosed` of the old one |
| `Script.Site.ClickCard` | script.js:166 | a click on a tile opens the modal for the record and index the tile was built with |
| `Script.Site.CardKeyDown` | script.js:167 | Enter on a tile opens its modal; the key press then reaches the document's handler |
| `Script.Site.KeyDown` | script.js:213-215 | the new state is `View.KeyPressed` of the old one |
| `Script.Site.ClickModal` | script.js:210-212 | the new state is `View.ModalClicked` of the old one |
| `Script.Site.Init` | script.js:217-223 | the new state is `View.Loaded` of the old one |

## Left out

- Looking up elements and registering listeners (script.js:85-98 and the `addEventListener` calls) are browser interfaces. Each handler is modelled by its effect, as a method of `Site`.
- `[data-target]` buttons (script.js:133-137): each calls `switchPage` with its target, which is `Site.SwitchPage`. Which elements carry the attribute is markup.
- Browser side effects are not modelled: `window.scrollTo` (script.js:115), `modalClose.focus()` (script.js:200), and the history entry made by `history.replaceState` (script.js:116). Only the fragment that the last of these leaves is kept.
- The fragment is stored as the string written, `"#" + target`. The browser's normalisation when reading it back is not modelled, such as percent-encoding or a bare `#` reading as empty. Both readings of a bare `#` route to `home`.
- Tile and modal markup is not modelled: the inner HTML, `aria-label`, `tabindex` and `role` (script.js:155-165). A tile keeps its background, title and subtitle, plus the record and index its handlers use. The description is kept verbatim as a string.
- `Navigation.ActivatePage`: the id lookup searches the whole document, not only `.page` elements. When the first element with id `t` is not a page, the source adds `active` to that element, even if a page with id `t` comes later. The model holds only pages: it leaves every page inactive when no page has id `t`, and activates the first page with id `t` even when some other element with that id comes before it.
- Missing values are represented as the empty string: a `thumbnail` or `heroImage` that is `undefined`, and a link without `data-target`. For the background choice this is exact, since `undefined` and `""` are both falsy. For links it is not. In the source such a link's target is `undefined`, so a click on it calls `switchPage(undefined)`. That looks up the id `"undefined"`, writes the fragment `#undefined`, and marks every link without `data-target`, since `undefined === undefined`. The model's switch to `""` instead finds no page and writes `#`; it does mark the links with an empty target. Targets are strings here, and the `undefined` value is not modelled.
- The placeholder catalog (script.js:7-72) is data. `Site` takes the catalog as a constructor argument. `Catalog.FeaturedPrefix` covers the shipped catalog's ordering, with the featured records first.
- The star-field canvas, scroll-reveal animation, detail pages, image gallery, lightbox and PDF export do not appear in this script. They are not part of this model.
