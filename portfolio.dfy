/**
  The single-page portfolio of the root `App.jsx`: six fixed mock photos
  and a row of filter buttons, where `all` shows every photo and any
  other button shows the photos of that category.
*/
module Portfolio {
  import opened Sequences
  import opened PhotoData

  /** `MOCK_PHOTOS`: the fixed photo list the page shows. */
  const MockPhotos: seq<Photo> := [
    Photo(1, "https://images.unsplash.com/photo-1504450758481-7338eba7524a?auto=format&fit=crop&w=800", "sports", "Action Shot"),
    Photo(2, "https://images.unsplash.com/photo-1511795409834-ef04bbd61622?auto=format&fit=crop&w=800", "ceremonial", "Grand Hall"),
    Photo(3, "https://images.unsplash.com/photo-1492684223066-81342ee5ff30?auto=format&fit=crop&w=800", "social", "Evening Event"),
    Photo(4, "https://images.unsplash.com/photo-1506744038136-46273834b3fb?auto=format&fit=crop&w=800", "landscapes", "Mountain Vista"),
    Photo(5, "https://images.unsplash.com/photo-1461891213886-4b0af0a68cbb?auto=format&fit=crop&w=800", "sports", "The Sprint"),
    Photo(6, "https://images.unsplash.com/photo-1533174072545-7a4b6ad7a6c3?auto=format&fit=crop&w=800", "social", "Celebration")
  ]

  /** The sentinel button that shows every photo. */
  const All: string := "all"

  /** The filter buttons, in the order they are drawn. */
  const FilterButtons: seq<string> := [All, "sports", "ceremonial", "social", "landscapes"]

  /** `filteredPhotos` for the active button over a photo list. */
  function Selection(photos: seq<Photo>, activeCategory: string): (shown: seq<Photo>)
    ensures IsSubsequence(shown, photos)
    ensures activeCategory != All ==> forall i :: 0 <= i < |shown| ==> shown[i].category == activeCategory
  {
    if activeCategory == All then
      SubsequenceReflexive(photos);
      photos
    else Filter(photos, (p: Photo) => p.category == activeCategory)
  }

  /** The `all` button shows the list unchanged. */
  lemma SelectAllUnchanged(photos: seq<Photo>)
    ensures Selection(photos, All) == photos
  {
  }

  /**
    Any other button shows exactly the photos of its category, in their
    original order.
  */
  lemma SelectCategoryMembers(photos: seq<Photo>, activeCategory: string, i: nat)
    requires activeCategory != All
    requires i < |photos|
    ensures photos[i] in Selection(photos, activeCategory) <==> photos[i].category == activeCategory
  {
    FilterMembership(photos, (p: Photo) => p.category == activeCategory, photos[i]);
  }

  /** A button shows each of its photos as often as the list holds it. */
  lemma SelectCategoryCount(photos: seq<Photo>, activeCategory: string, p: Photo)
    requires activeCategory != All
    requires p.category == activeCategory
    ensures multiset(Selection(photos, activeCategory))[p] == multiset(photos)[p]
  {
    FilterCount(photos, (q: Photo) => q.category == activeCategory, p);
  }

  /** Every mock photo belongs to one of the four category buttons. */
  lemma MockCategoriesAreButtons()
    ensures forall i :: 0 <= i < |MockPhotos| ==> MockPhotos[i].category in FilterButtons[1..]
  {
  }

  /** The mock photo ids, used as render keys, are distinct. */
  lemma MockIdsDistinct()
    ensures forall i, j :: 0 <= i < j < |MockPhotos| ==> MockPhotos[i].id != MockPhotos[j].id
  {
  }

  /**
    The four category buttons partition the mock photos: each photo is
    shown under exactly one of them, and no category button is empty.
  */
  lemma ButtonsPartitionMockPhotos()
    ensures forall i :: 0 <= i < |MockPhotos| ==>
      forall b :: 1 <= b < |FilterButtons| ==>
        (MockPhotos[i] in Selection(MockPhotos, FilterButtons[b]) <==> MockPhotos[i].category == FilterButtons[b])
    ensures forall b :: 1 <= b < |FilterButtons| ==> |Selection(MockPhotos, FilterButtons[b])| > 0
  {
    forall i, b | 0 <= i < |MockPhotos| && 1 <= b < |FilterButtons|
      ensures MockPhotos[i] in Selection(MockPhotos, FilterButtons[b]) <==> MockPhotos[i].category == FilterButtons[b]
    {
      SelectCategoryMembers(MockPhotos, FilterButtons[b], i);
    }
    forall b | 1 <= b < |FilterButtons| ensures |Selection(MockPhotos, FilterButtons[b])| > 0 {
      var i := if b == 1 then 0 else if b == 2 then 1 else if b == 3 then 2 else 3;
      assert MockPhotos[i].category == FilterButtons[b];
      SelectCategoryMembers(MockPhotos, FilterButtons[b], i);
    }
  }
}
