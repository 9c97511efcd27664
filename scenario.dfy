/** A worked example of the reader on a concrete store. */
module Scenario {
  import opened Content
  import opened LayerIndex
  import opened Navigation

  /** Two authored fragments of layer 0, with orders 1 and 2. */
  const First: Entry := Entry(None, None, Some(0), Some(1), None)
  const Second: Entry := Entry(None, None, Some(0), Some(2), None)
  const TwoFragmentStore: Store := [("contour-1", First), ("contour-2", Second)]

  /** Layer 0 lists both fragments, by order. */
  lemma TwoFragmentIndex()
    ensures IdsInLayer(TwoFragmentStore, 0) == ["contour-1", "contour-2"]
  {
    var s := TwoFragmentStore;
    assert s[1..] == [("contour-2", Second)];
    assert s[1..][1..] == [];
    assert InLayer(s[1..], 0) == [("contour-2", Second)] + InLayer(s[1..][1..], 0);
    assert InLayer(s, 0) == [("contour-1", First)] + InLayer(s[1..], 0);
    assert InLayer(s, 0) == s;
    assert s[..1] == [("contour-1", First)];
    assert SortByOrder(s[..1]) == [("contour-1", First)];
    assert Insert(("contour-2", Second), [("contour-1", First)]) == s;
    assert LayerEntries(s, 0) == s;
  }

  /** Each fragment resolves to its own record, and `indexOf` finds each at
      its own position in layer 0's index. */
  lemma TwoFragmentLookups()
    ensures GetEntry(TwoFragmentStore, "contour-1") == First
    ensures GetEntry(TwoFragmentStore, "contour-2") == Second
    ensures IndexOf(["contour-1", "contour-2"], "contour-1") == 0
    ensures IndexOf(["contour-1", "contour-2"], "contour-2") == 1
  {
    var ids := ["contour-1", "contour-2"];
    GetEntryStored(TwoFragmentStore, 0);
    GetEntryStored(TwoFragmentStore, 1);
    assert ids[0] != ids[1];
    assert IndexOf(ids[1..], "contour-2") == 0;
  }

  /** Opening the first fragment shows prev disabled, next enabled and the
      Orientation link. */
  lemma TwoFragmentsFirstFooter()
    ensures FooterView(TwoFragmentStore, Some("contour-1"), GetEntry(TwoFragmentStore, "contour-1"))
      == Footer(true, false, "layer-0.html", "Read Orientation")
  {
    TwoFragmentIndex();
    TwoFragmentLookups();
  }

  /** Next leads from the first fragment to the second. */
  lemma TwoFragmentsNext()
    ensures NextTarget(TwoFragmentStore, Some("contour-1")) == Some("contour-2")
  {
    TwoFragmentIndex();
    TwoFragmentLookups();
  }

  /** At the second fragment prev is enabled and next is disabled. */
  lemma TwoFragmentsSecondFooter()
    ensures FooterView(TwoFragmentStore, Some("contour-2"), GetEntry(TwoFragmentStore, "contour-2"))
      == Footer(false, true, "layer-0.html", "Read Orientation")
  {
    TwoFragmentIndex();
    TwoFragmentLookups();
  }
}
