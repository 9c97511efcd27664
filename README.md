# Map reader controller of cartotopographies

This project models the controller behind the contour map reader in
`script.js`. Hovering a contour shows its title. Clicking it opens a side
panel with the contour's entry from the content store. The footer's prev and
next buttons step through the entries of the same layer in authoring order,
and a close button, the overlay or Escape hide the panel.

The model has four modules, and a worked example in `scenario.dfy`:

- `Content` (`content.dfy`) covers the content store and lookups over it.
  `CONTOUR_CONTENT` is a sequence of `(id, Entry)` pairs with unique keys,
  in insertion order. That is the order `Object.entries` gives for
  non-numeric keys. Every field of an `Entry` is optional.
  - `Find` is the property access `CONTOUR_CONTENT[id]` (script.js:161).
  - `getEntry` and `getFallbackEntry` become `GetEntry` (script.js:160-162)
    and `FallbackEntry` (script.js:130-158).
  - `TooltipLabel` is `getContourTitleForTooltip` (script.js:102-105).
  - `PanelTitle`, `PanelMeta` and `PanelBody` are the panel's text with its
    defaults (script.js:200-202).
  - `Layers` and `LayerLinkFor` are the `LAYERS` table and its `?? Essay`
    fallback (script.js:20-25, 191).
- `LayerIndex` (`layer_index.dfy`) models `getIdsInLayer` as `IdsInLayer`
  (script.js:164-169), built from three steps:
  - `InLayer` keeps the entries whose `layer` is strictly equal to the layer
    number (script.js:166);
  - `SortByOrder` sorts them stably by `OrderKey`, which is `order ?? 9999`
    (script.js:167);
  - `Ids` keeps the ids (script.js:168).
- `Navigation` (`navigation.dfy`) holds the pure parts of the footer and the
  buttons:
  - `IndexOf` is `ids.indexOf` (script.js:187, 222, 230);
  - `PrevTarget` and `NextTarget` give the target of a prev or next click,
    or None for a no-op (script.js:218-232);
  - `FooterView` is the footer `updateFooterNav` renders (script.js:176-193);
  - `NextWalk` is a run of repeated next clicks along a layer.
- `Reader` (`reader.dfy`) is the stateful controller. It is a class holding:
  - the module-level `currentId`;
  - the set of active contours;
  - the four panel flags;
  - the panel text;
  - the footer controls;
  - the tooltip text.

  Each function or handler of the source that changes state is a method of
  the class. Each method states the new state. The class invariants
  `Valid` and `FooterSynced` are kept across every handler. `FooterSynced`
  says the footer on screen is the one `updateFooterNav` would render for
  the current id.

The placeholder of an unauthored id claims layer 0 and order 9999, yet it is
never listed in any layer index, because `getIdsInLayer` reads only stored
entries (script.js:164-169). `Navigation.UnauthoredUnlisted` and
`Navigation.UnauthoredFooter` prove this and its consequence. After such an
id is opened, both footer buttons are disabled. The link still reads
"Read Orientation", unless layer 0 has no authored entries or the id is
empty.

## Model

| member | source | states |
|---|---|---|
| Content.FindSpec | script.js:161 | property access on the store finds an entry exactly when some pair has that key, and what it finds is stored under that key |
| Content.FindStored | script.js:161 | with unique keys, looking up the key at position i yields exactly the record at position i |
| Content.FallbackEntrySpec | script.js:130-158 | the placeholder has layer 0 and order 9999, and both its title and its body contain the id |
| Content.GetEntryStored | script.js:160-162 | a stored id resolves to its own record, unchanged |
| Content.GetEntryUnauthored | script.js:130-162 | an id stored nowhere resolves to the placeholder: title "Contour: " + id, the unwritten-fragment meta line, layer 0, order 9999, and a body that contains the id |
| Content.TooltipLabelSpec | script.js:102-105 | the hover label is the stored title when the id is stored with a title, and "Contour: " + id when no stored pair for the id has a title |
| Content.TooltipMatchesPanelTitle | script.js:102-105 | for every id, the hover label equals the title the panel opens with (script.js:200), whether the contour is authored, authored without a title or unwritten |
| Content.PanelTextStored | script.js:196-203 | for an authored id the panel shows the stored title, meta and body, with "Contour: " + id for a missing title and "" for a missing meta or body |
| Content.LayerLinkFor | script.js:20-25 | layers 0 to 3 link to "layer-<n>.html"; every other layer number falls back to the Essay link "essay.html" |
| LayerIndex.InLayerMembers | script.js:166 | the filter keeps exactly the store pairs whose layer is present and equal to n |
| LayerIndex.InLayerInStoreOrder | script.js:165-166 | with unique keys, the filtered pairs keep their store order |
| LayerIndex.SortByOrderSpec | script.js:167 | the sort's output is ordered by `order ?? 9999` and is a permutation of its input |
| LayerIndex.SortStable | script.js:167 | sorting a sequence that is in store order leaves pairs with equal keys in store order |
| LayerIndex.LayerEntriesStable | script.js:164-169 | in a layer's sorted entries, entries of equal order appear in store order |
| LayerIndex.IdsInLayerMembers | script.js:164-169 | an id is listed for layer n exactly when some stored pair has that id and layer n |
| LayerIndex.IdsInLayerDistinct | script.js:164-169 | no id is listed twice in a layer index |
| LayerIndex.IdsInLayerOrdered | script.js:164-169 | the layer index is non-decreasing in the resolved entry's `order ?? 9999`, and ids with equal order are in store order |
| Navigation.IndexOfSpec | script.js:187 | `indexOf` is -1 exactly when the id is absent, and otherwise the first position holding it |
| Navigation.FooterRule | script.js:173-194 | prev is enabled exactly when the id is non-empty, listed in its layer and not first; next is enabled exactly when it is non-empty, listed and not last; the link is essay.html / "Read Essay" for an empty id or an empty layer, and otherwise the layer's entry in the `LAYERS` table |
| Navigation.FooterMatchesHandlers | script.js:179-189 | each footer button is disabled exactly when its click handler would do nothing |
| Navigation.PrevStaysInLayer | script.js:218-224 | a prev move goes to a different stored id of the same layer, one position earlier in the layer index |
| Navigation.NextStaysInLayer | script.js:226-232 | a next move goes to a different stored id of the same layer, one position later in the layer index |
| Navigation.UnauthoredUnlisted | script.js:164-169 | an id stored nowhere is in no layer index, although its placeholder claims layer 0 |
| Navigation.UnauthoredFooter | script.js:173-194 | after an unauthored id is opened, prev and next are no-ops and both are disabled; the link is layer 0's unless layer 0 is empty or the id is empty |
| Navigation.StepInLayer | script.js:218-232 | from the id at position k of a layer index, prev goes to position k - 1 and next to k + 1, and each is a no-op at its end; from an empty id both are no-ops |
| Navigation.WalkLayer | script.js:226-232 | opening the id at position k and pressing next m times visits the layer index from k on, in order, and stops at its last id, when no id from k on is empty |
| Navigation.WalkEndsDisabled | script.js:187-189 | at the last id of a layer, next is a no-op and the footer shows next disabled |
| Scenario.TwoFragmentIndex | script.js:164-169 | for a store of contour-1 (layer 0, order 1) and contour-2 (layer 0, order 2), layer 0's index is exactly [contour-1, contour-2] |
| Scenario.TwoFragmentLookups | script.js:160-162 | in that store each fragment resolves to its own record, and `indexOf` finds contour-1 at 0 and contour-2 at 1 |
| Scenario.TwoFragmentsFirstFooter | script.js:173-194 | in that store, opening contour-1 shows prev disabled, next enabled and "Read Orientation" linking to layer-0.html |
| Scenario.TwoFragmentsNext | script.js:226-232 | in that store, next from contour-1 opens contour-2 |
| Scenario.TwoFragmentsSecondFooter | script.js:173-194 | in that store, opening contour-2 shows prev enabled, next disabled and the same layer link |
| Reader.MapReader.constructor | script.js:171 | the page starts with no current id, no active contour and the panel closed, with the footer as the markup gives it; the invariants hold |
| Reader.MapReader.SetActiveContour | script.js:107-111 | the new active set is the old one minus every contour, plus `id` when an element has that id; so at most `id` is active among the contours |
| Reader.MapReader.OpenPanel | script.js:113-120 | the panel and the overlay are open, `aria-hidden` is false and the body is marked, whatever they were before |
| Reader.MapReader.ClosePanel | script.js:122-128 | the panel and the overlay are closed, `aria-hidden` is true and the body is unmarked, whatever they were before |
| Reader.MapReader.UpdateFooterNav | script.js:173-194 | with all three controls present, the footer becomes the rendering for the current id and the entry; with any control missing, the footer is unchanged |
| Reader.MapReader.FillPanel | script.js:197-202 | `currentId` becomes `id`, and the panel's title, meta and body come from `getEntry(id)` with their defaults |
| Reader.MapReader.OpenPanelForContour | script.js:196-207 | afterwards `id` is current, the panel shows its entry and is open, only `id` can be an active contour, and the footer is synchronised with `id` (or untouched without controls); the invariants are kept |
| Reader.MapReader.PrevClick | script.js:218-224 | when the prev target exists, the reader then shows it: it is current, its entry fills the panel, the panel is open, the active set is the old one minus every contour plus the target if it has an element, and the footer is synchronised (or untouched without controls); otherwise nothing changes at all; the tooltip never changes; the invariants are kept |
| Reader.MapReader.NextClick | script.js:226-232 | when the next target exists, the reader then shows it: it is current, its entry fills the panel, the panel is open, the active set is the old one minus every contour plus the target if it has an element, and the footer is synchronised (or untouched without controls); otherwise nothing changes at all; the tooltip never changes; the invariants are kept |
| Reader.MapReader.CloseClick | script.js:211-212 | the close button and the overlay close the panel and change nothing else (in particular not `currentId`) |
| Reader.MapReader.KeyDown | script.js:214-216 | Escape closes the panel, changing only the four flags; every other key changes nothing |
| Reader.MapReader.MouseEnter | script.js:237-240 | the tooltip's text becomes the hover label of the contour |
| Reader.MapReader.ButtonsMatchHandlers | script.js:179-189 | in a synchronised reader with the controls present and an id opened, each button's disabled flag says exactly whether its handler is a no-op |

## Left out

- Document lookup and event wiring are host plumbing and are not modelled (script.js:3-17, 236-254). These include `getElementById`, `querySelectorAll` and `addEventListener`. Each handler is a method of `MapReader`. The constructor takes the ids that have an element and whether each optional footer control exists. The tooltip, the panel, the overlay and the panel's title, meta and body regions are assumed present. Without one of them the source throws partway through a handler; for example, with no overlay, script.js:115 throws after the panel is already marked open. The model does not capture such partial updates. The contour click handler (script.js:251-253) only calls `openPanelForContour`.
- Reader.MapReader.MouseEnter: the tooltip's opacity toggles and its pixel position from `pageX`/`pageY` are not modelled, because they are presentation driven by browser coordinates (script.js:238, 242-249).
- Content.FallbackEntrySpec: the placeholder's HTML template is abbreviated to its structure around the quoted id. The model keeps where the id goes, not the full wording of the markup.
- The authored entries of `CONTOUR_CONTENT` (script.js:29-98) are data, not logic. The store is a parameter. Bodies are opaque strings, and rendering them as HTML is not modelled.
- CSS classes and `aria-hidden` are booleans; their visual effect is out of scope.
- `getElementById` with duplicate element ids is collapsed into a set of ids that have an element.
- Keys inherited from `Object.prototype` (such as `toString`) are not modelled. For them, `CONTOUR_CONTENT[id]` would not be `undefined`.
- Layer and order values are integers. JavaScript numbers may be fractional or `NaN`, and the authored content holds none of these.
- LayerIndex.SortByOrder: the engine's sort algorithm is unspecified, so the model sorts by a stable insertion sort. Ordering, permutation and stability are proved about it. It is not proved that these three properties fix the output uniquely.
- Navigation.WalkLayer: stated only when no id from position k on is the empty string. An empty id is falsy, so both handlers return at once there (script.js:219, 227). A walk then stops at that id, as `StepInLayer` states, but the lemma does not give the shorter walk.
