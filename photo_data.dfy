/**
  The photo catalogue of `src/utils/photoData.js`: each image path found
  under `/public/images` becomes a photo record with an id, a served URL,
  a category chosen by keyword, and a title; `EventPreviews` picks up to
  two photos of each category for the home page.
*/
module PhotoData {
  import opened Text
  import opened Sequences

  /** One photo record `{ id, url, category, title }`. */
  datatype Photo = Photo(id: nat, url: string, category: string, title: string)

  /** The directory the bundler discovers images in; it is not part of the served URL. */
  const PublicDir: string := "/public"

  const Jrotc: string := "jrotc"
  const Sports: string := "sports"
  const SocialEvents: string := "social events"
  const Landscape: string := "landscape"

  /** The categories in the order the home page shows them. */
  const CategoryOrder: seq<string> := [Jrotc, Sports, SocialEvents, Landscape]

  /** Keywords that mark a path as JROTC coverage. */
  const JrotcKeywords: seq<string> := ["broward", "raider", "jrotc"]

  /** Keyword test on the lower-cased path: some JROTC keyword occurs in it. */
  predicate HasJrotcKeyword(lowerPath: string) {
    exists k :: k in JrotcKeywords && Contains(lowerPath, k)
  }

  /**
    The category of an image path: the first keyword rule that matches
    the lower-cased path wins, and `social events` is the fallback.
  */
  function Classify(path: string): (category: string)
    ensures category in CategoryOrder
  {
    var lowerPath := Lower(path);
    if HasJrotcKeyword(lowerPath) then Jrotc
    else if Contains(lowerPath, "sport") then Sports
    else if Contains(lowerPath, "landscape") then Landscape
    else SocialEvents
  }

  /** A JROTC keyword decides the category, whatever else the path contains. */
  lemma ClassifyJrotcFirst(path: string)
    requires HasJrotcKeyword(Lower(path))
    ensures Classify(path) == Jrotc
  {
  }

  /** Without a JROTC keyword, `sport` beats `landscape`. */
  lemma ClassifySportsBeforeLandscape(path: string)
    requires !HasJrotcKeyword(Lower(path))
    requires Contains(Lower(path), "sport")
    ensures Classify(path) == Sports
  {
  }

  /** Without a JROTC keyword or `sport`, `landscape` decides the category. */
  lemma ClassifyLandscape(path: string)
    requires !HasJrotcKeyword(Lower(path))
    requires !Contains(Lower(path), "sport")
    requires Contains(Lower(path), "landscape")
    ensures Classify(path) == Landscape
  {
  }

  /** The fallback is taken exactly when no keyword occurs. */
  lemma ClassifyFallback(path: string)
    ensures Classify(path) == SocialEvents <==>
      !HasJrotcKeyword(Lower(path))
      && !Contains(Lower(path), "sport")
      && !Contains(Lower(path), "landscape")
  {
  }

  /** Paths that differ only in letter case fall in the same category. */
  lemma ClassifyIgnoresCase(a: string, b: string)
    requires SameIgnoringCase(a, b)
    ensures Classify(a) == Classify(b)
  {
    LowerOfSameIgnoringCase(a, b);
  }

  /**
    A path with a JROTC keyword anywhere in it, written in any mix of
    cases, is a JROTC photo.
  */
  lemma ClassifyKeywordAnywhere(pre: string, word: string, post: string)
    requires Lower(word) in JrotcKeywords
    ensures Classify(pre + word + post) == Jrotc
  {
    var kw := Lower(word);
    LowerAppend(pre + word, post);
    LowerAppend(pre, word);
    assert Lower(pre + word + post) == Lower(pre) + kw + Lower(post);
    assert Contains(kw, kw) by {
      assert kw[..|kw|] == kw;
    }
    ContainsInContext(Lower(pre), kw, Lower(post), kw);
    assert Contains(Lower(pre + word + post), kw);
  }

  /**
    The record for the path at position `index`: the URL is the path with
    its first `/public` removed, the title is the last path segment.
  */
  function MakePhoto(path: string, index: nat): (p: Photo)
    ensures p.id == index
    ensures p.category in CategoryOrder
  {
    Photo(index, RemoveFirst(path, PublicDir), Classify(path), LastSegment(path, '/'))
  }

  /** The catalogue: one record per path, in the order the paths are given. */
  function Catalogue(paths: seq<string>): (photos: seq<Photo>)
    ensures |photos| == |paths|
    ensures forall i :: 0 <= i < |paths| ==> photos[i].id == i
    ensures forall i :: 0 <= i < |paths| ==> photos[i].category in CategoryOrder
  {
    seq(|paths|, i requires 0 <= i < |paths| => MakePhoto(paths[i], i))
  }

  /** Records are in path order and ids never repeat. */
  lemma CatalogueIds(paths: seq<string>)
    ensures forall i, j :: 0 <= i < j < |paths| ==> Catalogue(paths)[i].id < Catalogue(paths)[j].id
  {
  }

  /**
    The URL of record `i` is its path with the first `/public` taken out;
    a path without `/public` is served as it is.
  */
  lemma CatalogueUrl(paths: seq<string>, i: nat)
    requires i < |paths|
    ensures !Contains(paths[i], PublicDir) ==> Catalogue(paths)[i].url == paths[i]
    ensures Contains(paths[i], PublicDir) ==>
      exists k :: OccursAt(paths[i], PublicDir, k)
        && (forall j :: 0 <= j < k ==> !OccursAt(paths[i], PublicDir, j))
        && Catalogue(paths)[i].url == paths[i][..k] + paths[i][k + |PublicDir|..]
  {
    RemoveFirstSpec(paths[i], PublicDir);
  }

  /**
    The title of record `i` is the end of its path after the last `/`:
    a suffix without `/`, the whole path when there is no `/`.
  */
  lemma CatalogueTitle(paths: seq<string>, i: nat)
    requires i < |paths|
    ensures IsLastSegment(Catalogue(paths)[i].title, paths[i], '/')
  {
    LastSegmentSpec(paths[i], '/');
  }

  /** The category of record `i` is the classification of its path. */
  lemma CatalogueCategory(paths: seq<string>, i: nat)
    requires i < |paths|
    ensures Catalogue(paths)[i].category == Classify(paths[i])
  {
  }

  /** A home-page preview: a category name and its first photos. */
  datatype EventGroup = EventGroup(categoryName: string, photos: seq<Photo>)

  /** The photos of `catalogue` in category `cat`, in catalogue order. */
  function InCategory(catalogue: seq<Photo>, cat: string): (r: seq<Photo>)
    ensures IsSubsequence(r, catalogue)
    ensures forall i :: 0 <= i < |r| ==> r[i].category == cat
  {
    Filter(catalogue, (p: Photo) => p.category == cat)
  }

  /** Every photo of category `cat` is kept as often as the catalogue holds it. */
  lemma InCategoryCount(catalogue: seq<Photo>, cat: string, p: Photo)
    requires p.category == cat
    ensures multiset(InCategory(catalogue, cat))[p] == multiset(catalogue)[p]
  {
    FilterCount(catalogue, (q: Photo) => q.category == cat, p);
  }

  /** The preview of one category: at most its first two photos. */
  function PreviewOf(catalogue: seq<Photo>, cat: string): (g: EventGroup)
    ensures g.categoryName == cat
    ensures |g.photos| <= 2
    ensures forall j :: 0 <= j < |g.photos| ==> g.photos[j].category == cat
  {
    EventGroup(cat, Take(InCategory(catalogue, cat), 2))
  }

  /** `getEventPreviews`: one preview per category in display order, empty ones dropped. */
  function EventPreviews(catalogue: seq<Photo>): (groups: seq<EventGroup>)
    ensures forall i :: 0 <= i < |groups| ==> |groups[i].photos| > 0
  {
    Filter(AllPreviews(catalogue), (g: EventGroup) => |g.photos| > 0)
  }

  /** The position of a category in the display order. */
  function Rank(cat: string): (r: nat)
    ensures cat in CategoryOrder ==> r < |CategoryOrder| && CategoryOrder[r] == cat
  {
    if cat == Jrotc then 0
    else if cat == Sports then 1
    else if cat == SocialEvents then 2
    else if cat == Landscape then 3
    else |CategoryOrder|
  }

  /** The previews of every category, before empty ones are dropped. */
  function AllPreviews(catalogue: seq<Photo>): (all: seq<EventGroup>)
    ensures |all| == |CategoryOrder|
    ensures forall k :: 0 <= k < |all| ==> all[k] == PreviewOf(catalogue, CategoryOrder[k])
  {
    seq(|CategoryOrder|, k requires 0 <= k < |CategoryOrder| => PreviewOf(catalogue, CategoryOrder[k]))
  }

  /**
    Each preview belongs to one of the four categories and holds the first
    one or two photos of that category, in catalogue order.
  */
  lemma PreviewGroup(catalogue: seq<Photo>, i: nat)
    requires i < |EventPreviews(catalogue)|
    ensures var g := EventPreviews(catalogue)[i];
      var inCat := InCategory(catalogue, g.categoryName);
      && g.categoryName in CategoryOrder
      && 0 < |g.photos| <= 2
      && |g.photos| == (if |inCat| < 2 then |inCat| else 2)
      && g.photos == inCat[..|g.photos|]
      && (forall j :: 0 <= j < |g.photos| ==> g.photos[j].category == g.categoryName)
  {
    var all := AllPreviews(catalogue);
    var g := EventPreviews(catalogue)[i];
    assert EventPreviews(catalogue) == Filter(all, (g: EventGroup) => |g.photos| > 0);
    FilterMembership(all, (g: EventGroup) => |g.photos| > 0, g);
    var k :| 0 <= k < |all| && all[k] == g;
  }

  /** The previews follow the order `jrotc`, `sports`, `social events`, `landscape`. */
  lemma PreviewsOrdered(catalogue: seq<Photo>)
    ensures var groups := EventPreviews(catalogue);
      forall i, j :: 0 <= i < j < |groups| ==> Rank(groups[i].categoryName) < Rank(groups[j].categoryName)
  {
    var all := AllPreviews(catalogue);
    var rank := (g: EventGroup) => Rank(g.categoryName) as int;
    assert rank(all[0]) == 0 && rank(all[1]) == 1 && rank(all[2]) == 2 && rank(all[3]) == 3;
    assert forall k :: 0 <= k < |all| ==> rank(all[k]) == k;
    assert EventPreviews(catalogue) == Filter(all, (g: EventGroup) => |g.photos| > 0);
    SubsequenceSorted(EventPreviews(catalogue), all, rank);
  }

  /** There are at most four previews. */
  lemma PreviewsAtMostFour(catalogue: seq<Photo>)
    ensures |EventPreviews(catalogue)| <= |CategoryOrder|
  {
    var all := AllPreviews(catalogue);
    assert EventPreviews(catalogue) == Filter(all, (g: EventGroup) => |g.photos| > 0);
    SubsequenceLength(EventPreviews(catalogue), all);
  }

  /** A category has a preview exactly when some catalogue photo is in it. */
  lemma PreviewsPresence(catalogue: seq<Photo>, cat: string)
    ensures (exists g :: g in EventPreviews(catalogue) && g.categoryName == cat)
      <==> cat in CategoryOrder && exists i :: 0 <= i < |catalogue| && catalogue[i].category == cat
  {
    var all := AllPreviews(catalogue);
    var nonEmpty := (g: EventGroup) => |g.photos| > 0;
    var inCategory := (p: Photo) => p.category == cat;
    assert EventPreviews(catalogue) == Filter(all, nonEmpty);
    if g :| g in EventPreviews(catalogue) && g.categoryName == cat {
      FilterMembership(all, nonEmpty, g);
      var k :| 0 <= k < |all| && all[k] == g;
      var photos := InCategory(catalogue, cat);
      assert photos == Filter(catalogue, inCategory);
      FilterMembership(catalogue, inCategory, photos[0]);
      var i :| 0 <= i < |catalogue| && catalogue[i] == photos[0];
    }
    if cat in CategoryOrder && exists i :: 0 <= i < |catalogue| && catalogue[i].category == cat {
      var i :| 0 <= i < |catalogue| && catalogue[i].category == cat;
      var photos := InCategory(catalogue, cat);
      assert photos == Filter(catalogue, inCategory);
      FilterMembership(catalogue, inCategory, catalogue[i]);
      var k := Rank(cat);
      assert all[k] == PreviewOf(catalogue, cat);
      FilterMembership(all, nonEmpty, all[k]);
    }
  }
}
