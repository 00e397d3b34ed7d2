/**
 * The photo picker `AttachMenuViewController`: the assets it lists, the
 * cells the user has selected (at most five), and what it tells the
 * input bar about the selection.
 */
module AttachMenu {

  /** A `PHAsset`, known by its `localIdentifier`. */
  datatype Asset = Asset(localIdentifier: string)

  /** `IndexPath(item:section:)`. */
  datatype IndexPath = IndexPath(section: nat, item: nat)

  /** `PHAuthorizationStatus`. */
  datatype AuthorizationStatus = NotDetermined | Restricted | Denied | Authorized | Limited

  /** The most images `didSelectItemAt` lets the user select. */
  const SelectionLimit: nat := 5

  /** What a tap on a cell does: change the selection, or show the limit
      alert and leave the selection alone. */
  datatype TapOutcome = Toggled(selection: set<IndexPath>) | LimitReached

  /** `collectionView(_:didSelectItemAt:)` on the selection alone. */
  function Tap(selected: set<IndexPath>, indexPath: IndexPath): (r: TapOutcome)
    ensures indexPath in selected ==> r == Toggled(selected - {indexPath})
    ensures indexPath !in selected && |selected| < SelectionLimit ==> r == Toggled(selected + {indexPath})
    ensures r.LimitReached? <==> indexPath !in selected && |selected| >= SelectionLimit
  {
    if indexPath in selected then Toggled(selected - {indexPath})
    else if |selected| < SelectionLimit then Toggled(selected + {indexPath})
    else LimitReached
  }

  /** A tap never takes the selection past the limit. */
  lemma TapKeepsLimit(selected: set<IndexPath>, indexPath: IndexPath)
    requires |selected| <= SelectionLimit
    ensures Tap(selected, indexPath).Toggled? ==> |Tap(selected, indexPath).selection| <= SelectionLimit
  {
    if indexPath in selected {
      assert |selected - {indexPath}| == |selected| - 1;
    }
  }

  /** A tap changes the selection by exactly the tapped cell. */
  lemma TapChangesOneCell(selected: set<IndexPath>, indexPath: IndexPath)
    ensures Tap(selected, indexPath).Toggled? ==>
      var s := Tap(selected, indexPath).selection;
      (indexPath in s <==> indexPath !in selected)
      && forall p :: p != indexPath ==> (p in s <==> p in selected)
  {
  }

  /** Tapping a cell twice gives back the selection, unless the first tap
      hit the limit. */
  lemma TapTwice(selected: set<IndexPath>, indexPath: IndexPath)
    requires |selected| <= SelectionLimit && Tap(selected, indexPath).Toggled?
    ensures Tap(Tap(selected, indexPath).selection, indexPath) == Toggled(selected)
  {
    var s := Tap(selected, indexPath).selection;
    if indexPath in selected {
      assert s + {indexPath} == selected;
      assert |s| < |selected|;
    } else {
      assert s - {indexPath} == selected;
    }
  }

  class AttachMenuViewController {
    var imageAssets: seq<Asset>
    var selectedIndexes: set<IndexPath>
    /** How often the limit alert has been presented. */
    var limitAlertsShown: nat
    /** The two arguments of the last `toggleInput(isSelection:selectedCount:)`. */
    var inputShown: bool
    var selectedCountShown: nat

    /** The selection stays within the limit. */
    ghost predicate Valid()
      reads this
    {
      |selectedIndexes| <= SelectionLimit
    }

    constructor()
      ensures Valid()
      ensures imageAssets == [] && selectedIndexes == {} && limitAlertsShown == 0
      ensures !inputShown && selectedCountShown == 0
    {
      imageAssets := [];
      selectedIndexes := {};
      limitAlertsShown := 0;
      inputShown := false;
      selectedCountShown := 0;
    }

    /** `toggleInputContainerView()`: the input bar shows whether anything
        is selected, and how much. */
    method ToggleInputContainerView()
      modifies this
      ensures inputShown == (selectedIndexes != {}) && selectedCountShown == |selectedIndexes|
      ensures imageAssets == old(imageAssets) && selectedIndexes == old(selectedIndexes)
      ensures limitAlertsShown == old(limitAlertsShown)
    {
      var hasSelection := selectedIndexes != {};
      inputShown := hasSelection;
      selectedCountShown := |selectedIndexes|;
    }

    /** `collectionView(_:didSelectItemAt:)`: a selected cell is deselected;
        another is selected while fewer than five are; otherwise the limit
        alert is shown and nothing else changes. */
    method DidSelectItemAt(indexPath: IndexPath)
      requires Valid()
      modifies this
      ensures Valid()
      ensures imageAssets == old(imageAssets)
      ensures Tap(old(selectedIndexes), indexPath).LimitReached? ==>
        && selectedIndexes == old(selectedIndexes)
        && limitAlertsShown == old(limitAlertsShown) + 1
        && inputShown == old(inputShown) && selectedCountShown == old(selectedCountShown)
      ensures Tap(old(selectedIndexes), indexPath).Toggled? ==>
        && selectedIndexes == Tap(old(selectedIndexes), indexPath).selection
        && limitAlertsShown == old(limitAlertsShown)
        && inputShown == (selectedIndexes != {}) && selectedCountShown == |selectedIndexes|
    {
      TapKeepsLimit(selectedIndexes, indexPath);
      if indexPath in selectedIndexes {
        selectedIndexes := selectedIndexes - {indexPath};
      } else {
        if !(|selectedIndexes| < 5) {
          limitAlertsShown := limitAlertsShown + 1;
          return;
        }
        selectedIndexes := selectedIndexes + {indexPath};
      }
      ToggleInputContainerView();
    }

    /** `loadGalleryView()`: with access to the library, the grid lists the
        fetched assets, in the order the fetch returns them; without it,
        nothing changes. */
    method LoadGalleryView(status: AuthorizationStatus, assets: seq<Asset>)
      requires Valid()
      modifies this
      ensures Valid()
      ensures status == Authorized || status == Limited ==> imageAssets == assets
      ensures !(status == Authorized || status == Limited) ==> imageAssets == old(imageAssets)
      ensures selectedIndexes == old(selectedIndexes) && limitAlertsShown == old(limitAlertsShown)
      ensures inputShown == old(inputShown) && selectedCountShown == old(selectedCountShown)
    {
      if !(status == Authorized || status == Limited) {
        return;
      }
      imageAssets := [];
      var i := 0;
      while i < |assets|
        invariant 0 <= i <= |assets|
        invariant imageAssets == assets[..i]
        invariant selectedIndexes == old(selectedIndexes) && limitAlertsShown == old(limitAlertsShown)
        invariant inputShown == old(inputShown) && selectedCountShown == old(selectedCountShown)
      {
        imageAssets := imageAssets + [assets[i]];
        i := i + 1;
      }
    }

    /** `getPhotosFromAlbum(_:)`: the grid lists the album's assets, the
        selection is cleared and the input bar hidden. */
    method GetPhotosFromAlbum(assets: seq<Asset>)
      modifies this
      ensures Valid()
      ensures imageAssets == assets && selectedIndexes == {}
      ensures !inputShown && selectedCountShown == 0
      ensures limitAlertsShown == old(limitAlertsShown)
    {
      var newAssets: seq<Asset> := [];
      var i := 0;
      while i < |assets|
        invariant 0 <= i <= |assets|
        invariant newAssets == assets[..i]
      {
        newAssets := newAssets + [assets[i]];
        i := i + 1;
      }
      assert assets[..i] == assets;
      imageAssets := newAssets;
      selectedIndexes := {};
      ToggleInputContainerView();
    }
  }
}
