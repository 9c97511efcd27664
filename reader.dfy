/** The map reader's controller: the current id, the active contour, the
    panel and its footer, and the handlers that change them. Document
    elements are reduced to the flags and strings the handlers write. */
module Reader {
  import opened Content
  import opened LayerIndex
  import opened Navigation

  class MapReader {
    /** `CONTOUR_CONTENT`. */
    const store: Store
    /** The ids of the `.contour` elements, in document order. */
    const contours: seq<string>
    /** The ids `document.getElementById` finds an element for. */
    const elements: set<string>
    /** Whether the optional `#prev-fragment`, `#next-fragment` and
        `#layer-link` elements exist. */
    const hasPrev: bool
    const hasNext: bool
    const hasLink: bool

    /** The module-level `currentId`; None is `null`. */
    var currentId: Option<string>
    /** The ids of the elements that carry the class `active-contour`. */
    var active: set<string>
    /** Class `open` on the panel and on the overlay, the panel's
        `aria-hidden`, and class `panel-open` on the document body. */
    var panelOpen: bool
    var overlayOpen: bool
    var ariaHidden: bool
    var bodyPanelOpen: bool
    /** The text of `#panel-title` and `#panel-meta` and the markup of
        `#panel-body`. */
    var title: string
    var meta: string
    var bodyHtml: string
    /** The footer controls: the disabled flags of `#prev-fragment` and
        `#next-fragment`, and the target and text of `#layer-link`. */
    var footer: Footer
    /** The tooltip's markup. */
    var tooltipText: string

    /** `updateFooterNav` does anything only when all three controls exist. */
    predicate FooterPresent() {
      hasPrev && hasNext && hasLink
    }

    function ContourIds(): set<string> {
      set c | c in contours
    }

    /** The four presentation flags move together: the panel is shown
        exactly when the overlay is, the panel is visible to assistive
        technology and the body is marked. */
    ghost predicate PanelFlagsAgree()
      reads this`panelOpen, this`overlayOpen, this`ariaHidden, this`bodyPanelOpen
    {
      overlayOpen == panelOpen && ariaHidden == !panelOpen && bodyPanelOpen == panelOpen
    }

    /** The panel shows the entry of `id`, which is the current id and the one
        active contour, and the panel is open. */
    ghost predicate Showing(id: string)
      reads this`currentId, this`title, this`meta, this`bodyHtml, this`active, this`panelOpen
    {
      var e := GetEntry(store, id);
      currentId == Some(id) &&
      title == PanelTitle(e, id) && meta == PanelMeta(e) && bodyHtml == PanelBody(e) &&
      (forall c :: c in contours && c in active ==> c == id) &&
      panelOpen
    }

    /** The controller's invariant: keys are unique, the presentation flags
        agree and no contour other than the current one is active. */
    ghost predicate Valid()
      reads this`panelOpen, this`overlayOpen, this`ariaHidden, this`bodyPanelOpen
      reads this`active, this`currentId
    {
      UniqueIds(store) &&
      PanelFlagsAgree() &&
      (forall c :: c in contours && c in active ==> currentId == Some(c))
    }

    /** Once an id has been opened, the footer shows what the layer index says
        about it (when the footer is there to show it). */
    ghost predicate FooterSynced()
      reads this`currentId, this`footer
    {
      FooterPresent() && currentId.Some? ==>
        footer == FooterView(store, currentId, GetEntry(store, currentId.value))
    }

    /** The page as loaded: nothing selected, no contour active, the panel
        closed; the footer shows what the markup gives it. */
    constructor (store: Store, contours: seq<string>, elements: set<string>,
                 hasPrev: bool, hasNext: bool, hasLink: bool,
                 footer: Footer)
      requires UniqueIds(store)
      ensures Valid() && FooterSynced()
      ensures this.store == store && this.contours == contours && this.elements == elements
      ensures this.hasPrev == hasPrev && this.hasNext == hasNext && this.hasLink == hasLink
      ensures currentId == None && active == {} && !panelOpen
      ensures this.footer == footer
    {
      this.store := store;
      this.contours := contours;
      this.elements := elements;
      this.hasPrev := hasPrev;
      this.hasNext := hasNext;
      this.hasLink := hasLink;
      currentId := None;
      active := {};
      panelOpen, overlayOpen, ariaHidden, bodyPanelOpen := false, false, true, false;
      title, meta, bodyHtml := "", "", "";
      this.footer := footer;
      tooltipText := "";
    }

    /** Removes `active-contour` from every contour, then adds it to the
        element with id `id`, if there is one. */
    method SetActiveContour(id: string)
      modifies this`active
      ensures active == (old(active) - ContourIds()) + (if id in elements then {id} else {})
      ensures forall c :: c in contours && c in active ==> c == id
    {
      var i := 0;
      while i < |contours|
        invariant 0 <= i <= |contours|
        invariant active == old(active) - set k | 0 <= k < i :: contours[k]
      {
        active := active - {contours[i]};
        i := i + 1;
      }
      assert (set k | 0 <= k < |contours| :: contours[k]) == ContourIds() by {
        forall c | c in ContourIds() ensures c in set k | 0 <= k < |contours| :: contours[k] {
          var k :| 0 <= k < |contours| && contours[k] == c;
        }
      }
      if id in elements {
        active := active + {id};
      }
    }

    /** Shows the panel and the overlay and marks the body; idempotent, since
        the new flags do not depend on the old ones. */
    method OpenPanel()
      modifies this`panelOpen, this`overlayOpen, this`ariaHidden, this`bodyPanelOpen
      ensures panelOpen && overlayOpen && !ariaHidden && bodyPanelOpen
    {
      panelOpen := true;
      overlayOpen := true;
      ariaHidden := false;
      bodyPanelOpen := true;
    }

    /** Hides the panel and the overlay and unmarks the body; idempotent. */
    method ClosePanel()
      modifies this`panelOpen, this`overlayOpen, this`ariaHidden, this`bodyPanelOpen
      ensures !panelOpen && !overlayOpen && ariaHidden && !bodyPanelOpen
    {
      panelOpen := false;
      overlayOpen := false;
      ariaHidden := true;
      bodyPanelOpen := false;
    }

    /** Renders the footer for `entry` while `currentId` is current. */
    method UpdateFooterNav(entry: Entry)
      modifies this`footer
      ensures FooterPresent() ==> footer == FooterView(store, currentId, entry)
      ensures !FooterPresent() ==> footer == old(footer)
    {
      if !hasPrev || !hasNext || !hasLink {
        return;
      }
      var cur := currentId;
      var layerNum := LayerOf(entry);
      var ids := IdsInLayer(store, layerNum);
      if cur.None? || cur.value == "" || |ids| == 0 {
        footer := Footer(true, true, EssayFooterHref, EssayFooterText);
        return;
      }
      var idx := IndexOf(ids, cur.value);
      var layerInfo := LayerLinkFor(layerNum);
      footer := Footer(idx <= 0, idx < 0 || idx >= |ids| - 1, layerInfo.href, "Read " + layerInfo.name);
    }

    /** Makes `id` current and writes its entry's title, meta line and body
        into the panel; returns the entry. */
    method FillPanel(id: string) returns (entry: Entry)
      modifies this`currentId, this`title, this`meta, this`bodyHtml
      ensures entry == GetEntry(store, id) && currentId == Some(id)
      ensures title == PanelTitle(entry, id) && meta == PanelMeta(entry) && bodyHtml == PanelBody(entry)
    {
      currentId := Some(id);
      entry := GetEntry(store, id);
      title := PanelTitle(entry, id);
      meta := PanelMeta(entry);
      bodyHtml := PanelBody(entry);
    }

    /** A contour click: makes `id` current, fills the panel from its entry,
        marks it as the one active contour, renders the footer and opens the
        panel. */
    method OpenPanelForContour(id: string)
      requires Valid()
      modifies this`currentId, this`title, this`meta, this`bodyHtml, this`active
      modifies this`footer, this`panelOpen, this`overlayOpen, this`ariaHidden, this`bodyPanelOpen
      ensures Valid() && FooterSynced() && Showing(id)
      ensures active == (old(active) - ContourIds()) + (if id in elements then {id} else {})
      ensures !FooterPresent() ==> footer == old(footer)
    {
      var entry := FillPanel(id);
      SetActiveContour(id);
      UpdateFooterNav(entry);
      assert FooterSynced();
      OpenPanel();
    }

    /** The prev button's click handler. */
    method PrevClick()
      requires Valid() && FooterSynced()
      modifies this`currentId, this`title, this`meta, this`bodyHtml, this`active
      modifies this`footer, this`panelOpen, this`overlayOpen, this`ariaHidden, this`bodyPanelOpen
      ensures Valid() && FooterSynced()
      ensures PrevTarget(store, old(currentId)).None? ==> unchanged(this)
      ensures PrevTarget(store, old(currentId)).Some? ==>
        var t := PrevTarget(store, old(currentId)).value;
        Showing(t) &&
        active == (old(active) - ContourIds()) + (if t in elements then {t} else {}) &&
        (!FooterPresent() ==> footer == old(footer))
    {
      if currentId.None? || currentId.value == "" {
        return;
      }
      var entry := GetEntry(store, currentId.value);
      var ids := IdsInLayer(store, LayerOf(entry));
      var idx := IndexOf(ids, currentId.value);
      if idx > 0 {
        OpenPanelForContour(ids[idx - 1]);
      }
    }

    /** The next button's click handler. */
    method NextClick()
      requires Valid() && FooterSynced()
      modifies this`currentId, this`title, this`meta, this`bodyHtml, this`active
      modifies this`footer, this`panelOpen, this`overlayOpen, this`ariaHidden, this`bodyPanelOpen
      ensures Valid() && FooterSynced()
      ensures NextTarget(store, old(currentId)).None? ==> unchanged(this)
      ensures NextTarget(store, old(currentId)).Some? ==>
        var t := NextTarget(store, old(currentId)).value;
        Showing(t) &&
        active == (old(active) - ContourIds()) + (if t in elements then {t} else {}) &&
        (!FooterPresent() ==> footer == old(footer))
    {
      if currentId.None? || currentId.value == "" {
        return;
      }
      var entry := GetEntry(store, currentId.value);
      var ids := IdsInLayer(store, LayerOf(entry));
      var idx := IndexOf(ids, currentId.value);
      if idx >= 0 && idx < |ids| - 1 {
        OpenPanelForContour(ids[idx + 1]);
      }
    }

    /** A click on the close button or on the overlay. */
    method CloseClick()
      requires Valid()
      modifies this`panelOpen, this`overlayOpen, this`ariaHidden, this`bodyPanelOpen
      ensures Valid()
      ensures !panelOpen && !overlayOpen && ariaHidden && !bodyPanelOpen
    {
      ClosePanel();
    }

    /** A key press anywhere in the document: Escape closes the panel, every
        other key is ignored. */
    method KeyDown(key: string)
      requires Valid()
      modifies this`panelOpen, this`overlayOpen, this`ariaHidden, this`bodyPanelOpen
      ensures Valid()
      ensures key == "Escape" ==> !panelOpen && !overlayOpen && ariaHidden && !bodyPanelOpen
      ensures key != "Escape" ==> unchanged(this)
    {
      if key == "Escape" {
        ClosePanel();
      }
    }

    /** The pointer enters contour `id`: the tooltip names it. */
    method MouseEnter(id: string)
      modifies this`tooltipText
      ensures tooltipText == TooltipLabel(store, id)
    {
      tooltipText := TooltipLabel(store, id);
    }

    /** While the footer is present and some id has been opened, each button
        is disabled exactly when its handler would do nothing. */
    lemma ButtonsMatchHandlers()
      requires FooterSynced() && FooterPresent() && currentId.Some?
      ensures footer.prevDisabled <==> PrevTarget(store, currentId).None?
      ensures footer.nextDisabled <==> NextTarget(store, currentId).None?
    {
      FooterMatchesHandlers(store, currentId.value);
    }
  }
}
