# Portfolio page behaviour in Dafny

A model of the three stateful click handlers of the portfolio site's `script.js`,
with their state taken out of the DOM and kept as plain fields:

- **Documentation router** (`DocRouter`): a fixed registry of `intro`, `api` and
  `setup` fragments, a row of documentation links (each with an optional
  `data-doc` key and an `active` flag) and a content area. Selecting a link clears
  every flag, sets that link's flag and renders its fragment, or the fallback
  `<h1>Documento no encontrado</h1>`. Start-up is inert without links or without
  a content area, and otherwise selects the first link.
- **Project-card accordion** (`ProjectCards`): one `expanded` flag per card; a click
  collapses every other card and toggles the clicked one.
- **Theme toggle** (`Theme`): the current theme name, the page's `data-theme`
  attribute, the stored preference and the toggle button's text.

`Flags` holds what the first two share: counting set flags and the row in which
exactly one flag is set. `Wrappers` holds `Option`. `Scenarios` drives the router
through an example page over the page's registry (links keyed `intro`, `api`,
`setup` and `missing`: start-up on `intro`, a click on `api`, a click on `missing`)
and through a page without a content area; Dafny proves its assertions from the
methods' contracts and the registry literal.

JavaScript details kept in the model:

- `docs[key]` with a null attribute reads the property named `"null"` (`PropertyName`).
- The registry test is truthiness: an empty fragment would render the fallback (`Resolves`).
- A stored theme may be any string; an empty one counts as absent. A foreign
  name is kept as the theme until the first click, which turns it into `dark`.
- A click with no handler attached (router inert, no project grid, no toggle
  button) changes nothing.

## Model

| member | source | states |
|---|---|---|
| Flags.Exclusive | script.js:174-175 | after clearing every flag and setting flag `i`, flag `i` is set, every other flag is clear (whatever key its link has), and exactly one flag is set |
| Flags.CountOfSingleton | script.js:174-175 | a row whose only set flag is `i` has exactly one set flag |
| Flags.SingletonOfCount | script.js:174-175 | conversely, a row with exactly one set flag, flag `i`, is the exclusive row at `i` |
| DocRouter.Registry | script.js:164-168 | the registry has exactly the keys `intro`, `api`, `setup`, and each fragment is non-empty and differs from the fallback |
| DocRouter.Lookup | script.js:177-182 | the content is the registered fragment when the key names a truthy entry (a null key names `"null"`), and exactly the fallback otherwise; it is never empty |
| DocRouter.RegistryLookup | script.js:164-182 | with the page's registry, a present key renders its fragment, and the fallback appears exactly when the key is null or unregistered |
| DocRouter.Router.constructor | script.js:158-159 | the page as loaded: links, their keys and flags, an optional content area, no handlers attached |
| DocRouter.Router.Select | script.js:171-183 | after selecting link `i`, the flags are the exclusive row at `i` and the content is the lookup of link `i`'s key; the registry and the handlers are untouched |
| DocRouter.Router.Init | script.js:157-190 | with no links or no content area nothing changes and no handler is attached; otherwise handlers are attached, only link 0 is active and the content is the lookup of link 0's key; either way exactly one link is active with matching content once handlers exist |
| DocRouter.Router.Click | script.js:170-184 | a click selects link `i` when handlers are attached and changes nothing otherwise; the ready invariant is preserved |
| DocRouter.SelectTwice | script.js:174-182 | the flags and content after a second selection of the same link equal those after the first, which are the exclusive row at `i` and the lookup of its key |
| ProjectCards.AfterClick | script.js:120-130 | after a click on card `c` at most one card is expanded; none if `c` was expanded, otherwise only `c` |
| ProjectCards.ClickTwice | script.js:120-130 | two clicks on a collapsed card leave every card collapsed; two clicks on an expanded card leave only that card expanded |
| ProjectCards.Grid.constructor | script.js:111-113 | the cards as loaded; the handler exists only if the page has a project grid |
| ProjectCards.Grid.Click | script.js:115-136 | a click on no card, or on a page without a grid, changes nothing; a click on card `c` sets the flags to `AfterClick` of the old flags, so at most one card is expanded |
| Theme.InitialTheme | script.js:12-15 | a non-empty stored name is the theme; otherwise the theme is dark exactly when the system prefers dark, and light otherwise |
| Theme.Toggled | script.js:21 | a click always yields dark or light and never the theme it started from; every theme other than dark, including a foreign stored name, becomes dark |
| Theme.Label | script.js:19-24 | the button shows the sun exactly when the theme is dark, and the moon otherwise |
| Theme.ToggleTwice | script.js:21 | two clicks restore dark or light; any other stored name becomes light, not itself |
| Theme.ThemeToggle.constructor | script.js:10-19 | the start-up theme is `InitialTheme`, mirrored into `data-theme` and the button text; storage is not written |
| Theme.ThemeToggle.Click | script.js:20-25 | a click flips the theme, stores it under `theme`, mirrors it into `data-theme` and relabels the button; without a button nothing changes |

## Left out

- DocRouter.Lookup: only the registry's own keys are modelled; in JavaScript an inherited property name such as `toString` or `constructor` is truthy too and would render that property's text instead of the fallback.
- The particle background (`initBackground`, script.js:30-108): floating-point physics, randomness and canvas drawing; the page never calls it.
- The scroll blur (`initScrollBlur`, script.js:140-154): a floating-point comparison of element geometry against the window height.
- DOM plumbing: element lookups, listener registration (modelled as a `listening` flag or a `hasButton` constant), `preventDefault`, and `closest('.project-card')`, which is modelled as an optional card index.
- The delayed `scrollIntoView` after a card expands (script.js:132-134): a timer with a visual effect only.
- Storage, the colour-scheme media query and the `data-theme` attribute are plain fields and parameters, not calls.
- Markup rendering: content is an opaque string.
