/** The content store of the map reader and the lookups over it: the stored
    entry or a synthesized placeholder, the hover label, the text the panel
    shows, and the table of layer names and essay links. */
module Content {

  datatype Option<T> = None | Some(value: T) {
    /** JavaScript's `x ?? d` for a value that may be missing. */
    function GetOr(default: T): T {
      match this
      case Some(v) => v
      case None => default
    }
  }

  /** One authored record. Every field is optional in the source: a missing
      field reads as `undefined` and the callers supply a default. */
  datatype Entry = Entry(
    title: Option<string>,
    meta: Option<string>,
    layer: Option<int>,
    order: Option<int>,
    body: Option<string>)

  /** The content store as its keys and values in insertion order, which is
      the order `Object.entries` lists non-numeric string keys in. */
  type Store = seq<(string, Entry)>

  /** An object literal never holds the same key twice. */
  ghost predicate UniqueIds(s: Store) {
    forall i, j :: 0 <= i < j < |s| ==> s[i].0 != s[j].0
  }

  /** Some authored entry is stored under `id`. */
  ghost predicate Stored(s: Store, id: string) {
    exists i :: 0 <= i < |s| && s[i].0 == id
  }

  /** `t` occurs somewhere inside `u`. */
  ghost predicate Contains(u: string, t: string) {
    exists k :: 0 <= k <= |u| - |t| && Window(u, k, |t|) == t
  }

  /** The `n` characters of `u` from position `k` on. */
  function Window(u: string, k: nat, n: nat): string
    requires k + n <= |u|
  {
    u[k..k + n]
  }

  lemma ContainsMiddle(a: string, t: string, b: string)
    ensures Contains(a + t + b, t)
  {
    assert Window(a + t + b, |a|, |t|) == t;
  }

  /** Property access `CONTOUR_CONTENT[id]`: the value stored under `id`, or
      `undefined` (None) when there is none. */
  function Find(s: Store, id: string): Option<Entry> {
    if s == [] then None
    else if s[0].0 == id then Some(s[0].1)
    else Find(s[1..], id)
  }

  /** The lookup finds something exactly when the key is stored, and what it
      finds is stored under that key. */
  lemma {:induction false} FindSpec(s: Store, id: string)
    ensures Find(s, id).Some? <==> Stored(s, id)
    ensures Find(s, id).Some? ==> (id, Find(s, id).value) in s
  {
    if s != [] && s[0].0 != id {
      FindSpec(s[1..], id);
      if Stored(s[1..], id) {
        var i :| 0 <= i < |s[1..]| && s[1..][i].0 == id;
        assert s[i + 1].0 == id;
      }
      if Stored(s, id) {
        var i :| 0 <= i < |s| && s[i].0 == id;
        assert s[1..][i - 1].0 == id;
      }
    }
  }

  /** With unique keys, the lookup of a stored key yields exactly the record
      stored under it. */
  lemma {:induction false} FindStored(s: Store, i: nat)
    requires UniqueIds(s)
    requires i < |s|
    ensures Find(s, s[i].0) == Some(s[i].1)
  {
    if i > 0 {
      assert s[0].0 != s[i].0;
      assert UniqueIds(s[1..]) by {
        forall a, b | 0 <= a < b < |s[1..]| ensures s[1..][a].0 != s[1..][b].0 {
          assert s[1..][a] == s[a + 1] && s[1..][b] == s[b + 1];
        }
      }
      FindStored(s[1..], i - 1);
      assert s[1..][i - 1] == s[i];
    }
  }

  const FallbackOrder: int := 9999

  /** The fixed meta line of a placeholder entry. */
  const UnwrittenMeta: string := "Unwritten fragment \U{00B7} add this entry in CONTOUR_CONTENT"

  /** The authoring template of a placeholder entry, around the quoted id.
      The HTML wording is abbreviated; the model keeps where the id goes. */
  const TemplateHead: string := "<section class=\"entry\">Unwritten fragment<pre><code>\""
  const TemplateTail: string := "\": { title: \"...\", meta: \"...\", layer: 1, order: 3, body: ... }</code></pre></section>"

  /** The hover and panel label of a contour that has no title. */
  function DefaultTitle(id: string): string {
    "Contour: " + id
  }

  /** The placeholder that stands in for an unauthored contour. */
  function FallbackEntry(id: string): Entry {
    Entry(Some(DefaultTitle(id)), Some(UnwrittenMeta), Some(0), Some(FallbackOrder),
          Some(TemplateHead + id + TemplateTail))
  }

  /** The placeholder sits in layer 0, sorts last, and names the id in its
      title and in its body. */
  lemma FallbackEntrySpec(id: string)
    ensures FallbackEntry(id).title.Some? && Contains(FallbackEntry(id).title.value, id)
    ensures FallbackEntry(id).body.Some? && Contains(FallbackEntry(id).body.value, id)
    ensures FallbackEntry(id).layer == Some(0) && FallbackEntry(id).order == Some(FallbackOrder)
  {
    ContainsMiddle("Contour: ", id, "");
    assert DefaultTitle(id) == "Contour: " + id + "";
    ContainsMiddle(TemplateHead, id, TemplateTail);
  }

  /** `CONTOUR_CONTENT[id] ?? getFallbackEntry(id)`. */
  function GetEntry(s: Store, id: string): Entry {
    Find(s, id).GetOr(FallbackEntry(id))
  }

  /** A stored id resolves to its own record, field for field. */
  lemma GetEntryStored(s: Store, i: nat)
    requires UniqueIds(s)
    requires i < |s|
    ensures GetEntry(s, s[i].0) == s[i].1
  {
    FindStored(s, i);
  }

  /** An id that is not stored resolves to a placeholder in layer 0 that sorts
      last and names the id in its title and its body. */
  lemma GetEntryUnauthored(s: Store, id: string)
    requires forall i :: 0 <= i < |s| ==> s[i].0 != id
    ensures GetEntry(s, id).title == Some(DefaultTitle(id))
    ensures GetEntry(s, id).meta == Some(UnwrittenMeta)
    ensures GetEntry(s, id).layer == Some(0)
    ensures GetEntry(s, id).order == Some(FallbackOrder)
    ensures GetEntry(s, id).body.Some? && Contains(GetEntry(s, id).body.value, id)
  {
    FindSpec(s, id);
    FallbackEntrySpec(id);
  }

  /** `entry.layer ?? 0`: the layer navigation uses for an entry. */
  function LayerOf(e: Entry): int {
    e.layer.GetOr(0)
  }

  /** The text the tooltip shows for a contour: `item?.title ?? "Contour: " + id`. */
  function TooltipLabel(s: Store, id: string): string {
    match Find(s, id)
    case Some(e) => e.title.GetOr(DefaultTitle(id))
    case None => DefaultTitle(id)
  }

  /** The panel's title, meta line and body for an entry opened under `id`. */
  function PanelTitle(e: Entry, id: string): string {
    e.title.GetOr(DefaultTitle(id))
  }

  function PanelMeta(e: Entry): string {
    e.meta.GetOr("")
  }

  function PanelBody(e: Entry): string {
    e.body.GetOr("")
  }

  /** The tooltip names a stored, titled contour by its title and every other
      contour by the generic label. */
  lemma TooltipLabelSpec(s: Store, id: string)
    requires UniqueIds(s)
    ensures forall i :: 0 <= i < |s| && s[i].0 == id && s[i].1.title.Some? ==>
      TooltipLabel(s, id) == s[i].1.title.value
    ensures (forall i :: 0 <= i < |s| && s[i].0 == id ==> s[i].1.title.None?) ==>
      TooltipLabel(s, id) == DefaultTitle(id)
  {
    FindSpec(s, id);
    forall i | 0 <= i < |s| && s[i].0 == id {
      FindStored(s, i);
    }
  }

  /** Hovering a contour shows exactly the title its panel would open with,
      whether the contour is authored, authored without a title, or unwritten. */
  lemma TooltipMatchesPanelTitle(s: Store, id: string)
    ensures TooltipLabel(s, id) == PanelTitle(GetEntry(s, id), id)
  {
  }

  /** The panel shows the stored fields of an authored entry, with `""` for a
      missing meta or body and the generic label for a missing title. */
  lemma PanelTextStored(s: Store, i: nat)
    requires UniqueIds(s)
    requires i < |s|
    ensures PanelTitle(GetEntry(s, s[i].0), s[i].0) ==
      (if s[i].1.title.Some? then s[i].1.title.value else DefaultTitle(s[i].0))
    ensures PanelMeta(GetEntry(s, s[i].0)) ==
      (if s[i].1.meta.Some? then s[i].1.meta.value else "")
    ensures PanelBody(GetEntry(s, s[i].0)) ==
      (if s[i].1.body.Some? then s[i].1.body.value else "")
  {
    FindStored(s, i);
  }

  /** A row of the `LAYERS` table. */
  datatype LayerInfo = LayerInfo(name: string, href: string)

  const Layers: map<int, LayerInfo> := map[
    0 := LayerInfo("Orientation", "layer-0.html"),
    1 := LayerInfo("Instrument", "layer-1.html"),
    2 := LayerInfo("Extraction / Governance", "layer-2.html"),
    3 := LayerInfo("Ruin / Afterlives", "layer-3.html")]

  const EssayLink: LayerInfo := LayerInfo("Essay", "essay.html")

  /** `LAYERS[n] ?? { name: "Essay", href: "essay.html" }`. */
  function LayerLinkFor(n: int): (r: LayerInfo)
    ensures 0 <= n <= 3 ==> r.href == "layer-" + [('0' as int + n) as char] + ".html"
    ensures (n < 0 || 3 < n) ==> r == EssayLink
  {
    if n in Layers then Layers[n] else EssayLink
  }
}
