/**
  The pure parts of the gallery page (`src/pages/Gallery.jsx`): how the
  route's `categoryId` and `subCategoryId` select photos from the
  catalogue, the page title, and the file name offered for download.
*/
module Gallery {
  import opened Text
  import opened Sequences
  import opened PhotoData

  /** A route parameter that may be missing (`undefined`). */
  datatype Param = Missing | Given(value: string)

  /** `param?.toLowerCase() || ""`: a missing parameter reads as the empty string. */
  function Normalize(param: Param): (search: string)
    ensures IsLowerCase(search)
    ensures param.Missing? ==> search == ""
    ensures param.Given? ==>
      (|search| == |param.value| && forall i :: 0 <= i < |search| ==> search[i] == LowerChar(param.value[i]))
  {
    match param
    case Missing => ""
    case Given(s) => Lower(s)
  }

  /**
    The `filteredPhotos` test for one photo: with a sub-category the
    lower-cased URL must contain it, otherwise the lower-cased category
    must equal the category parameter read with spaces for hyphens.
  */
  predicate Shows(photo: Photo, categorySearch: string, subCategorySearch: string) {
    if subCategorySearch != "" then Contains(Lower(photo.url), subCategorySearch)
    else Lower(photo.category) == DashesToSpaces(categorySearch)
  }

  /** The photos the gallery page shows for the route `/{categoryId}/{subCategoryId}`. */
  function FilteredPhotos(catalogue: seq<Photo>, categoryId: Param, subCategoryId: Param): (shown: seq<Photo>)
    ensures IsSubsequence(shown, catalogue)
  {
    var categorySearch := Normalize(categoryId);
    var subCategorySearch := Normalize(subCategoryId);
    Filter(catalogue, (photo: Photo) => Shows(photo, categorySearch, subCategorySearch))
  }

  /**
    With a sub-category, a catalogue photo is shown exactly when its
    lower-cased URL contains the lower-cased sub-category.
  */
  lemma SubCategorySelects(catalogue: seq<Photo>, categoryId: Param, subCategoryId: Param, i: nat)
    requires Normalize(subCategoryId) != ""
    requires i < |catalogue|
    ensures catalogue[i] in FilteredPhotos(catalogue, categoryId, subCategoryId)
      <==> Contains(Lower(catalogue[i].url), Normalize(subCategoryId))
  {
    var keep := (photo: Photo) => Shows(photo, Normalize(categoryId), Normalize(subCategoryId));
    FilterMembership(catalogue, keep, catalogue[i]);
  }

  /** With a sub-category, the category parameter plays no part. */
  lemma SubCategoryIgnoresCategory(catalogue: seq<Photo>, categoryId: Param, otherCategoryId: Param, subCategoryId: Param)
    requires Normalize(subCategoryId) != ""
    ensures FilteredPhotos(catalogue, categoryId, subCategoryId) == FilteredPhotos(catalogue, otherCategoryId, subCategoryId)
  {
    var sub := Normalize(subCategoryId);
    FilterCongruent(catalogue,
      (photo: Photo) => Shows(photo, Normalize(categoryId), sub),
      (photo: Photo) => Shows(photo, Normalize(otherCategoryId), sub));
  }

  /**
    Without a sub-category, a catalogue photo is shown exactly when its
    lower-cased category equals the category parameter with its hyphens
    read as spaces.
  */
  lemma CategorySelects(catalogue: seq<Photo>, categoryId: Param, subCategoryId: Param, i: nat)
    requires Normalize(subCategoryId) == ""
    requires i < |catalogue|
    ensures catalogue[i] in FilteredPhotos(catalogue, categoryId, subCategoryId)
      <==> Lower(catalogue[i].category) == DashesToSpaces(Normalize(categoryId))
  {
    var keep := (photo: Photo) => Shows(photo, Normalize(categoryId), Normalize(subCategoryId));
    FilterMembership(catalogue, keep, catalogue[i]);
  }

  /** With neither parameter, nothing from a catalogue of classified photos is shown. */
  lemma NoParametersShowNothing(paths: seq<string>, categoryId: Param, subCategoryId: Param)
    requires Normalize(categoryId) == "" && Normalize(subCategoryId) == ""
    ensures FilteredPhotos(Catalogue(paths), categoryId, subCategoryId) == []
  {
    var catalogue := Catalogue(paths);
    var keep := (photo: Photo) => Shows(photo, Normalize(categoryId), Normalize(subCategoryId));
    forall i | 0 <= i < |catalogue| ensures !keep(catalogue[i]) {
      assert catalogue[i].category in CategoryOrder;
      assert |Lower(catalogue[i].category)| > 0;
    }
    FilterNone(catalogue, keep);
  }

  /** `categoryName.replace(/\s+/g, '-')`: the link the home page builds for a preview. */
  function Slug(categoryName: string): (slug: string)
    ensures NoWhitespace(slug)
  {
    WhitespaceRunsToDashes(categoryName)
  }

  /** The four category names are already lower-case. */
  lemma CategoriesLowerCase(cat: string)
    requires cat in CategoryOrder
    ensures Lower(cat) == cat
  {
    assert IsLowerCase(cat);
    LowerOfLowerCase(cat);
  }

  /** A lower-case, single-spaced name reads back from its slug unchanged. */
  lemma SingleSpacedReadsBack(name: string)
    requires SingleSpaced(name) && IsLowerCase(name)
    ensures DashesToSpaces(Lower(Slug(name))) == name
  {
    SlugRoundTrip(name);
    WhitespaceRunsToDashesLowerCase(name);
    LowerOfLowerCase(Slug(name));
  }

  /** The four category names are lower-case and single-spaced. */
  lemma CategoriesSingleSpaced(cat: string)
    requires cat in CategoryOrder
    ensures SingleSpaced(cat) && IsLowerCase(cat)
  {
    forall i | 0 <= i < |cat|
      ensures cat[i] != '-' && (IsWhitespace(cat[i]) ==> cat[i] == ' ')
      ensures i + 1 < |cat| && cat[i] == ' ' ==> cat[i + 1] != ' '
    {
      if cat == SocialEvents && i == 6 {
        assert cat[i] == ' ' && cat[i + 1] == 'e';
      } else {
        assert 'a' <= cat[i] <= 'z';
      }
    }
  }

  /** The slug of every category reads back as that category. */
  lemma SlugReadsBack(cat: string)
    requires cat in CategoryOrder
    ensures DashesToSpaces(Lower(Slug(cat))) == cat
  {
    CategoriesSingleSpaced(cat);
    SingleSpacedReadsBack(cat);
  }

  /**
    Following the link of a home-page preview opens a gallery that shows
    exactly the catalogue photos of that preview's category.
  */
  lemma PreviewLinkRoundTrip(paths: seq<string>, g: EventGroup)
    requires g in EventPreviews(Catalogue(paths))
    ensures FilteredPhotos(Catalogue(paths), Given(Slug(g.categoryName)), Missing)
      == InCategory(Catalogue(paths), g.categoryName)
  {
    var catalogue := Catalogue(paths);
    var cat := g.categoryName;
    var k :| 0 <= k < |EventPreviews(catalogue)| && EventPreviews(catalogue)[k] == g;
    PreviewGroup(catalogue, k);
    SlugReadsBack(cat);
    var categorySearch := Normalize(Given(Slug(cat)));
    assert DashesToSpaces(categorySearch) == cat;
    var shows := (photo: Photo) => Shows(photo, categorySearch, "");
    var inCategory := (p: Photo) => p.category == cat;
    forall i | 0 <= i < |catalogue| ensures shows(catalogue[i]) == inCategory(catalogue[i]) {
      CategoriesLowerCase(catalogue[i].category);
    }
    FilterCongruent(catalogue, shows, inCategory);
  }

  /**
    `displayTitle`: the sub-category when there is one, else the category,
    with every hyphen read as a space.
  */
  function DisplayTitle(categorySearch: string, subCategorySearch: string): (title: string)
  {
    if subCategorySearch != "" then DashesToSpaces(subCategorySearch) else DashesToSpaces(categorySearch)
  }

  /**
    The title has no hyphen and differs from the parameter it comes from
    only where that parameter has a hyphen.
  */
  lemma DisplayTitleSpec(categorySearch: string, subCategorySearch: string)
    ensures var source := if subCategorySearch != "" then subCategorySearch else categorySearch;
      var title := DisplayTitle(categorySearch, subCategorySearch);
      && '-' !in title
      && |title| == |source|
      && forall i :: 0 <= i < |source| ==> title[i] == (if source[i] == '-' then ' ' else source[i])
  {
    DashesToSpacesSpec(subCategorySearch);
    DashesToSpacesSpec(categorySearch);
  }

  /** The text of a route parameter as it appears in the URL, `""` when it is missing. */
  function Raw(param: Param): string {
    match param
    case Missing => ""
    case Given(s) => s
  }

  /**
    The title read from the route itself: the sub-category as written when
    one is given, else the category, lower-cased with hyphens read as
    spaces; a parameter without hyphens becomes its own lower-case form.
  */
  lemma DisplayTitleOfRoute(categoryId: Param, subCategoryId: Param)
    ensures var raw := if Raw(subCategoryId) != "" then Raw(subCategoryId) else Raw(categoryId);
      var title := DisplayTitle(Normalize(categoryId), Normalize(subCategoryId));
      && title == Lower(DashesToSpaces(raw))
      && ('-' !in raw ==> title == Lower(raw))
  {
    var raw := if Raw(subCategoryId) != "" then Raw(subCategoryId) else Raw(categoryId);
    assert Normalize(categoryId) == Lower(Raw(categoryId));
    assert Normalize(subCategoryId) == Lower(Raw(subCategoryId));
    assert DisplayTitle(Normalize(categoryId), Normalize(subCategoryId)) == DashesToSpaces(Lower(raw));
    LowerDashesToSpaces(raw);
    if '-' !in raw {
      DashesToSpacesNoDash(raw);
    }
  }

  /** The title of the gallery a preview links to is the preview's category name. */
  lemma PreviewLinkTitle(cat: string)
    requires cat in CategoryOrder
    ensures DisplayTitle(Normalize(Given(Slug(cat))), Normalize(Missing)) == cat
  {
    SlugReadsBack(cat);
  }

  /** The fixed start of every download name. */
  const DownloadPrefix: string := "ArthuroVisuals-"

  /** The fixed end of every download name. */
  const DownloadExtension: string := ".jpg"

  /** `ArthuroVisuals-${displayTitle.replace(/\s+/g, '-')}-${photo.id}.jpg` */
  function DownloadName(displayTitle: string, photoId: nat): (name: string)
  {
    DownloadPrefix + WhitespaceRunsToDashes(displayTitle) + "-" + Decimal(photoId) + DownloadExtension
  }

  /** A download name has no whitespace in it. */
  lemma DownloadNameNoWhitespace(displayTitle: string, photoId: nat)
    ensures NoWhitespace(DownloadName(displayTitle, photoId))
  {
    var slugged := WhitespaceRunsToDashes(displayTitle);
    var digits := Decimal(photoId);
    NoWhitespaceAppend(DownloadPrefix, slugged);
    NoWhitespaceAppend(DownloadPrefix + slugged, "-");
    NoWhitespaceAppend(DownloadPrefix + slugged + "-", digits);
    NoWhitespaceAppend(DownloadPrefix + slugged + "-" + digits, DownloadExtension);
  }

  /**
    A download name starts with `ArthuroVisuals-` and ends with
    `-<id>.jpg`, and the id can be read back from it.
  */
  lemma DownloadNameShape(displayTitle: string, photoId: nat)
    ensures var name := DownloadName(displayTitle, photoId);
      var digits := Decimal(photoId);
      && |DownloadPrefix| + |DownloadExtension| < |name|
      && name[..|DownloadPrefix|] == DownloadPrefix
      && name[|name| - |DownloadExtension|..] == DownloadExtension
      && name[|name| - |DownloadExtension| - |digits| - 1..|name| - |DownloadExtension|] == "-" + digits
      && DecimalValue(digits) == photoId
  {
    var front := DownloadPrefix + WhitespaceRunsToDashes(displayTitle);
    var digits := Decimal(photoId);
    var name := DownloadName(displayTitle, photoId);
    DecimalRoundTrip(photoId);
    assert name == front + ("-" + digits) + DownloadExtension;
    assert name[..|DownloadPrefix|] == DownloadPrefix;
    assert name[|front|..|name| - |DownloadExtension|] == "-" + digits;
  }
}
