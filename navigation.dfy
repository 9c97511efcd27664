/** Navigation within a layer: where the prev and next buttons lead from the
    current id, and what the footer shows for it. */
module Navigation {
  import opened Content
  import opened LayerIndex

  /** `ids.indexOf(x)`: the first position of `x`, or -1 when it is absent. */
  function IndexOf(ids: seq<string>, x: string): (r: int)
    ensures -1 <= r < |ids|
  {
    if ids == [] then -1
    else if ids[0] == x then 0
    else
      var k := IndexOf(ids[1..], x);
      if k < 0 then -1 else k + 1
  }

  /** The index is -1 exactly when `x` is absent, and otherwise the first
      position holding `x`. */
  lemma {:induction false} IndexOfSpec(ids: seq<string>, x: string)
    ensures IndexOf(ids, x) == -1 <==> x !in ids
    ensures 0 <= IndexOf(ids, x) ==> ids[IndexOf(ids, x)] == x && x !in ids[..IndexOf(ids, x)]
  {
    if ids != [] && ids[0] != x {
      IndexOfSpec(ids[1..], x);
      var k := IndexOf(ids[1..], x);
      assert ids == [ids[0]] + ids[1..];
      assert 0 <= k ==> ids[..k + 1] == [ids[0]] + ids[1..][..k];
    }
  }

  /** In a list without repeats, an element is found at its own position. */
  lemma IndexOfDistinct(ids: seq<string>, k: nat)
    requires k < |ids|
    requires forall i, j :: 0 <= i < j < |ids| ==> ids[i] != ids[j]
    ensures IndexOf(ids, ids[k]) == k
  {
    IndexOfSpec(ids, ids[k]);
  }

  /** `!currentId`: no current id (null) or the empty id. */
  predicate Falsy(cur: Option<string>) {
    cur.None? || cur.value == ""
  }

  /** The layer index of the layer the entry under `id` belongs to,
      `getIdsInLayer(getEntry(id).layer ?? 0)`. */
  function LayerIdsFor(s: Store, id: string): seq<string> {
    IdsInLayer(s, LayerOf(GetEntry(s, id)))
  }

  /** The id the prev button opens from `cur`, or None when a click is a no-op. */
  function PrevTarget(s: Store, cur: Option<string>): Option<string> {
    if Falsy(cur) then None
    else
      var ids := LayerIdsFor(s, cur.value);
      var idx := IndexOf(ids, cur.value);
      if idx > 0 then Some(ids[idx - 1]) else None
  }

  /** The id the next button opens from `cur`, or None when a click is a no-op. */
  function NextTarget(s: Store, cur: Option<string>): Option<string> {
    if Falsy(cur) then None
    else
      var ids := LayerIdsFor(s, cur.value);
      var idx := IndexOf(ids, cur.value);
      if 0 <= idx < |ids| - 1 then Some(ids[idx + 1]) else None
  }

  /** What the footer controls show: the two disabled flags and the layer
      link's target and text. */
  datatype Footer = Footer(prevDisabled: bool, nextDisabled: bool, href: string, text: string)

  /** The footer link with no layer to name: the essay's entry of the layer
      table, as `Read ${name}` would render it. */
  const EssayFooterHref: string := EssayLink.href
  const EssayFooterText: string := "Read " + EssayLink.name

  /** The footer `updateFooterNav(e)` renders while the current id is `cur`. */
  function FooterView(s: Store, cur: Option<string>, e: Entry): Footer {
    var layerNum := LayerOf(e);
    var ids := IdsInLayer(s, layerNum);
    if Falsy(cur) || |ids| == 0 then
      Footer(true, true, EssayFooterHref, EssayFooterText)
    else
      var idx := IndexOf(ids, cur.value);
      var info := LayerLinkFor(layerNum);
      Footer(idx <= 0, idx < 0 || idx >= |ids| - 1, info.href, "Read " + info.name)
  }

  /** An id listed in a layer index resolves to an entry of that layer. */
  lemma LayerOfListed(s: Store, n: int, id: string)
    requires UniqueIds(s)
    requires id in IdsInLayer(s, n)
    ensures Stored(s, id)
    ensures LayerOf(GetEntry(s, id)) == n
  {
    IdsInLayerMembers(s, n, id);
    var i :| 0 <= i < |s| && s[i].0 == id && s[i].1.layer == Some(n);
    GetEntryStored(s, i);
  }

  /** Each footer button is disabled exactly when its click handler would do
      nothing, for the footer rendered when `id` is opened. */
  lemma FooterMatchesHandlers(s: Store, id: string)
    ensures FooterView(s, Some(id), GetEntry(s, id)).prevDisabled <==> PrevTarget(s, Some(id)).None?
    ensures FooterView(s, Some(id), GetEntry(s, id)).nextDisabled <==> NextTarget(s, Some(id)).None?
  {
  }

  /** The footer rule in terms of the layer index: prev is enabled exactly when
      the current id is listed and is not first, next exactly when it is
      listed and is not last; the link is the layer's, or the essay's when
      there is no current id or the layer is empty. */
  lemma FooterRule(s: Store, id: string)
    requires UniqueIds(s)
    ensures var f := FooterView(s, Some(id), GetEntry(s, id));
      var ids := LayerIdsFor(s, id);
      (!f.prevDisabled <==> id != "" && id in ids && ids[0] != id) &&
      (!f.nextDisabled <==> id != "" && id in ids && ids[|ids| - 1] != id) &&
      (id == "" || ids == [] ==> f.href == EssayFooterHref && f.text == EssayFooterText) &&
      (id != "" && ids != [] ==>
        f.href == LayerLinkFor(LayerOf(GetEntry(s, id))).href &&
        f.text == "Read " + LayerLinkFor(LayerOf(GetEntry(s, id))).name)
  {
    var ids := LayerIdsFor(s, id);
    IdsInLayerDistinct(s, LayerOf(GetEntry(s, id)));
    IndexOfSpec(ids, id);
    if id in ids {
      var idx := IndexOf(ids, id);
      IndexOfDistinct(ids, |ids| - 1);
      IndexOfDistinct(ids, 0);
      assert idx == 0 <==> ids[0] == id;
      assert idx == |ids| - 1 <==> ids[|ids| - 1] == id;
    }
  }

  /** A prev move goes to the id just before the current one in the current
      layer's index, which is a different, stored id of the same layer. */
  lemma PrevStaysInLayer(s: Store, id: string)
    requires UniqueIds(s)
    requires PrevTarget(s, Some(id)).Some?
    ensures var t := PrevTarget(s, Some(id)).value;
      var ids := LayerIdsFor(s, id);
      t != id && Stored(s, t) &&
      LayerOf(GetEntry(s, t)) == LayerOf(GetEntry(s, id)) &&
      IndexOf(ids, t) == IndexOf(ids, id) - 1
  {
    var n := LayerOf(GetEntry(s, id));
    var ids := LayerIdsFor(s, id);
    var idx := IndexOf(ids, id);
    IdsInLayerDistinct(s, n);
    IndexOfDistinct(ids, idx - 1);
    LayerOfListed(s, n, ids[idx - 1]);
  }

  /** A next move goes to the id just after the current one in the current
      layer's index, which is a different, stored id of the same layer. */
  lemma NextStaysInLayer(s: Store, id: string)
    requires UniqueIds(s)
    requires NextTarget(s, Some(id)).Some?
    ensures var t := NextTarget(s, Some(id)).value;
      var ids := LayerIdsFor(s, id);
      t != id && Stored(s, t) &&
      LayerOf(GetEntry(s, t)) == LayerOf(GetEntry(s, id)) &&
      IndexOf(ids, t) == IndexOf(ids, id) + 1
  {
    var n := LayerOf(GetEntry(s, id));
    var ids := LayerIdsFor(s, id);
    var idx := IndexOf(ids, id);
    IdsInLayerDistinct(s, n);
    IndexOfDistinct(ids, idx + 1);
    LayerOfListed(s, n, ids[idx + 1]);
  }

  /** An unauthored id is in no layer index: the index reads stored entries
      only, whatever layer the placeholder claims. */
  lemma UnauthoredUnlisted(s: Store, id: string)
    requires forall i :: 0 <= i < |s| ==> s[i].0 != id
    ensures forall n :: id !in IdsInLayer(s, n)
  {
    forall n ensures id !in IdsInLayer(s, n) {
      IdsInLayerMembers(s, n, id);
    }
  }

  /** After an unauthored id is opened both buttons are dead and disabled, and
      the link is layer 0's unless layer 0 is empty or the id is the empty one. */
  lemma UnauthoredFooter(s: Store, id: string)
    requires forall i :: 0 <= i < |s| ==> s[i].0 != id
    ensures PrevTarget(s, Some(id)) == None && NextTarget(s, Some(id)) == None
    ensures var f := FooterView(s, Some(id), GetEntry(s, id));
      f.prevDisabled && f.nextDisabled &&
      (if id == "" || IdsInLayer(s, 0) == [] then f.href == EssayFooterHref && f.text == EssayFooterText
       else f.href == Layers[0].href && f.text == "Read " + Layers[0].name)
  {
    UnauthoredUnlisted(s, id);
    GetEntryUnauthored(s, id);
    IndexOfSpec(IdsInLayer(s, 0), id);
  }

  /** Prev and next from the id at position `k` of a layer index lead to
      positions `k - 1` and `k + 1`, and are no-ops at the first and the last
      position; from the empty id, which is falsy, both are no-ops. */
  lemma StepInLayer(s: Store, n: int, k: nat)
    requires UniqueIds(s)
    requires k < |IdsInLayer(s, n)|
    ensures var ids := IdsInLayer(s, n);
      PrevTarget(s, Some(ids[k])) == (if k > 0 && ids[k] != "" then Some(ids[k - 1]) else None) &&
      NextTarget(s, Some(ids[k])) == (if k + 1 < |ids| && ids[k] != "" then Some(ids[k + 1]) else None)
  {
    var ids := IdsInLayer(s, n);
    IdsInLayerMembers(s, n, ids[k]);
    LayerOfListed(s, n, ids[k]);
    IdsInLayerDistinct(s, n);
    IndexOfDistinct(ids, k);
  }

  /** The ids visited from `id` by `m` presses of a button whose handler
      moves to `step(id)`, or stays when that is None; each move is listed. */
  function Walk(step: string -> Option<string>, id: string, m: nat): seq<string>
    decreases m
  {
    [id] + if m == 0 then [] else
      match step(id)
      case None => []
      case Some(t) => Walk(step, t, m - 1)
  }

  /** Opening `id` and pressing next `m` times. */
  function NextWalk(s: Store, id: string, m: nat): seq<string> {
    Walk(x => NextTarget(s, Some(x)), id, m)
  }

  /** Pressing along a list that the step function walks one id at a time
      from position `k` on. */
  lemma {:induction false} WalkAlong(step: string -> Option<string>, ids: seq<string>, k: nat, m: nat)
    requires k < |ids|
    requires forall j :: k <= j < |ids| ==>
      step(ids[j]) == if j + 1 < |ids| then Some(ids[j + 1]) else None
    ensures Walk(step, ids[k], m) == ids[k..if k + m + 1 < |ids| then k + m + 1 else |ids|]
    decreases m
  {
    var end := if k + m + 1 < |ids| then k + m + 1 else |ids|;
    assert step(ids[k]) == if k + 1 < |ids| then Some(ids[k + 1]) else None;
    if m == 0 || k + 1 == |ids| {
      assert ids[k..end] == [ids[k]];
    } else {
      WalkAlong(step, ids, k + 1, m - 1);
      assert ids[k..end] == [ids[k]] + ids[k + 1..end];
    }
  }

  /** Opening the id at position `k` of a layer and pressing next `m` times
      visits the layer index from `k` on, in order, and stops at its end,
      provided no id from `k` on is the empty, falsy one. */
  lemma WalkLayer(s: Store, n: int, k: nat, m: nat)
    requires UniqueIds(s)
    requires k < |IdsInLayer(s, n)|
    requires forall j :: k <= j < |IdsInLayer(s, n)| ==> IdsInLayer(s, n)[j] != ""
    ensures var ids := IdsInLayer(s, n);
      NextWalk(s, ids[k], m) == ids[k..if k + m + 1 < |ids| then k + m + 1 else |ids|]
  {
    var ids := IdsInLayer(s, n);
    var step := x => NextTarget(s, Some(x));
    forall j | k <= j < |ids|
      ensures step(ids[j]) == if j + 1 < |ids| then Some(ids[j + 1]) else None
    {
      StepInLayer(s, n, j);
    }
    WalkAlong(step, ids, k, m);
  }

  /** Once the walk reaches the last id of the layer, next is a no-op and the
      footer rendered for that id shows next disabled. */
  lemma WalkEndsDisabled(s: Store, n: int)
    requires UniqueIds(s)
    requires IdsInLayer(s, n) != []
    ensures var last := IdsInLayer(s, n)[|IdsInLayer(s, n)| - 1];
      NextTarget(s, Some(last)) == None &&
      FooterView(s, Some(last), GetEntry(s, last)).nextDisabled
  {
    var ids := IdsInLayer(s, n);
    StepInLayer(s, n, |ids| - 1);
    FooterMatchesHandlers(s, ids[|ids| - 1]);
  }
}
