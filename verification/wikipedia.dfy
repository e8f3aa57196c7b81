/**
  The post-fetch half of `searchWikipedia` and `searchWikimediaImages` in
  src/lib/wikipedia.ts. The two decoded JSON payloads (the search response
  and the page-details response) are parameters; each hit becomes one result
  through chains of optional property reads and `||` fallbacks, and the
  image search then drops the entries without an image address.
*/
module Wikipedia {
  import opened JsValue
  import opened JsText
  import opened Description

  /** An encyclopedia hit. `id`, `title` and `thumbnail` carry whatever JSON value the payloads hold. */
  datatype SearchResult = SearchResult(id: Value, title: Value, description: string, thumbnail: Value)

  /** A media-file hit. `imageUrl`, `author` and `license` carry whatever JSON value the payloads hold. */
  datatype ImageSearchResult =
    ImageSearchResult(id: string, title: string, description: string, imageUrl: Value, author: Value, license: Value)

  // ---------------------------------------------------------------------
  // Reading the payloads
  // ---------------------------------------------------------------------

  /** `searchData.query?.search`. */
  function SearchList(searchData: Value): Value
    requires !Nullish(searchData)
  {
    Chain(Prop(searchData, "query"), "search")
  }

  /** The early return: `!searchData.query?.search?.length`. */
  predicate NoHits(searchData: Value)
    requires !Nullish(searchData)
  {
    !Truthy(Chain(SearchList(searchData), "length"))
  }

  /** The hits the results are built from: the search list when it is an array. */
  function HitList(searchData: Value): seq<Value>
    requires !Nullish(searchData)
  {
    var list := SearchList(searchData);
    if list.Arr? then list.items else []
  }

  /**
    The hits `results.map` runs over. A nullish payload throws at the
    length test; a list whose `length` is truthy but which is not an array
    has no `map` method, so that throws too.
  */
  function Hits(searchData: Value): (r: Outcome<seq<Value>>)
    ensures r.Returned? ==> !Nullish(searchData) && r.value == (if NoHits(searchData) then [] else HitList(searchData))
  {
    if Nullish(searchData) then Threw
    else if NoHits(searchData) then Returned([])
    else if SearchList(searchData).Arr? then Returned(SearchList(searchData).items)
    else Threw
  }

  /** `payload.query?.pages?.[hit.pageid]`: the page-details entry of a hit. */
  function PageData(payload: Value, hit: Value): (r: Value)
    requires !Nullish(payload) && !Nullish(hit)
    ensures Nullish(Chain(Prop(payload, "query"), "pages")) ==> r == Undefined
  {
    Chain(Chain(Prop(payload, "query"), "pages"), ToJsString(Prop(hit, "pageid")))
  }

  /**
    With the page-details entries listed as `JSON.parse` builds them, the
    entry a hit reads is the one stored under its page id.
  */
  lemma {:induction false} PageDataUnique(payload: Value, hit: Value, i: nat)
    requires !Nullish(payload) && !Nullish(hit)
    requires Chain(Prop(payload, "query"), "pages").Obj?
    requires var fields := Chain(Prop(payload, "query"), "pages").fields;
      WellFormedFields(fields) && i < |fields| && fields[i].0 == ToJsString(Prop(hit, "pageid"))
    ensures PageData(payload, hit) == Chain(Prop(payload, "query"), "pages").fields[i].1
  {
    LookupUnique(Chain(Prop(payload, "query"), "pages").fields, i);
  }

  /** The text handed to `cleanDescription`: `extract || hit.snippet || ''`, where `extract` is `pageData?.extract || ''`. */
  function DescriptionSource(pageData: Value, hit: Value): (r: Value)
    requires !Nullish(hit)
    ensures Truthy(Chain(pageData, "extract")) ==> r == Chain(pageData, "extract")
    ensures !Truthy(Chain(pageData, "extract")) && Truthy(Prop(hit, "snippet")) ==> r == Prop(hit, "snippet")
    ensures !Truthy(Chain(pageData, "extract")) && !Truthy(Prop(hit, "snippet")) ==> r == Str("")
  {
    Or(Or(Or(Chain(pageData, "extract"), Str("")), Prop(hit, "snippet")), Str(""))
  }

  /** `pageData?.thumbnail?.source || null`. */
  function Thumbnail(pageData: Value): (r: Value)
    ensures Truthy(Chain(Chain(pageData, "thumbnail"), "source")) ==> r == Chain(Chain(pageData, "thumbnail"), "source")
    ensures !Truthy(Chain(Chain(pageData, "thumbnail"), "source")) ==> r == Null
  {
    Or(Chain(Chain(pageData, "thumbnail"), "source"), Null)
  }

  // ---------------------------------------------------------------------
  // Text search
  // ---------------------------------------------------------------------

  /**
    The `results.map` callback of `searchWikipedia`. It throws when the
    page-details payload or the hit is nullish, and when the description
    text is truthy but not a string (it has no `replace` method).
  */
  function ToSearchResult(summaryData: Value, hit: Value): (r: Outcome<SearchResult>)
    ensures r.Returned? ==> !Nullish(summaryData) && !Nullish(hit)
    ensures r.Returned? ==> r.value.id == Prop(hit, "pageid") && r.value.title == Prop(hit, "title")
  {
    if Nullish(summaryData) || Nullish(hit) then Threw
    else
      var pageData := PageData(summaryData, hit);
      var source := DescriptionSource(pageData, hit);
      if source.Str? then
        Returned(SearchResult(Prop(hit, "pageid"), Prop(hit, "title"), Clean(source.s), Thumbnail(pageData)))
      else Threw
  }

  /** `searchWikipedia` after both fetches. */
  function SearchWikipedia(searchData: Value, summaryData: Value): (r: Outcome<seq<SearchResult>>)
    ensures r.Returned? ==> !Nullish(searchData) && |r.value| == |HitList(searchData)|
  {
    match Hits(searchData)
    case Threw => Threw
    case Returned(hits) => MapAll(hits, hit => ToSearchResult(summaryData, hit))
  }

  /** A search payload without a non-empty `query.search` list gives no results, whatever the page details. */
  lemma {:induction false} SearchWikipediaNoHits(searchData: Value, summaryData: Value)
    requires !Nullish(searchData) && NoHits(searchData)
    ensures SearchWikipedia(searchData, summaryData) == Returned([])
    ensures SearchList(searchData) == Undefined || SearchList(searchData) == Arr([]) ==> NoHits(searchData)
  {
  }

  /**
    Every result belongs to the hit in the same position: its `id` and
    `title` are the hit's, unchanged; its description is the cleaned
    extract, else the cleaned snippet, else `""`, and is well spaced and
    free of tags; its thumbnail is the page's thumbnail source or `null`.
  */
  lemma {:induction false} SearchWikipediaOnePerHit(searchData: Value, summaryData: Value, rs: seq<SearchResult>)
    requires SearchWikipedia(searchData, summaryData) == Returned(rs)
    ensures !Nullish(searchData) && |rs| == |HitList(searchData)|
    ensures rs != [] ==> !Nullish(summaryData)
    ensures forall i | 0 <= i < |rs| :: !Nullish(HitList(searchData)[i])
    ensures forall i | 0 <= i < |rs| ::
      rs[i].id == Prop(HitList(searchData)[i], "pageid") && rs[i].title == Prop(HitList(searchData)[i], "title")
    ensures forall i | 0 <= i < |rs| ::
      var hit := HitList(searchData)[i];
      var source := DescriptionSource(PageData(summaryData, hit), hit);
      source.Str? && rs[i].description == Clean(source.s) && rs[i].thumbnail == Thumbnail(PageData(summaryData, hit))
    ensures forall i | 0 <= i < |rs| :: WellSpaced(rs[i].description) && NoTag(rs[i].description)
  {
    var hits := Hits(searchData).value;
    HitsAreHitList(searchData);
    forall i | 0 <= i < |rs|
      ensures !Nullish(hits[i]) && !Nullish(summaryData)
      ensures rs[i].id == Prop(hits[i], "pageid") && rs[i].title == Prop(hits[i], "title")
      ensures var source := DescriptionSource(PageData(summaryData, hits[i]), hits[i]);
        source.Str? && rs[i].description == Clean(source.s) && rs[i].thumbnail == Thumbnail(PageData(summaryData, hits[i]))
      ensures WellSpaced(rs[i].description) && NoTag(rs[i].description)
    {
      SearchResultFields(summaryData, hits[i], rs[i]);
    }
  }

  /** When there are hits to map, they are the search list's items. */
  lemma {:induction false} HitsAreHitList(searchData: Value)
    requires Hits(searchData).Returned?
    ensures Hits(searchData).value == HitList(searchData)
  {
    if NoHits(searchData) && SearchList(searchData).Arr? {
      assert SearchList(searchData).items == [];
    }
  }

  /** The fields of one text result, read from its hit and page details. */
  lemma {:induction false} SearchResultFields(summaryData: Value, hit: Value, r: SearchResult)
    requires ToSearchResult(summaryData, hit) == Returned(r)
    ensures !Nullish(hit) && !Nullish(summaryData)
    ensures r.id == Prop(hit, "pageid") && r.title == Prop(hit, "title")
    ensures var source := DescriptionSource(PageData(summaryData, hit), hit);
      source.Str? && r.description == Clean(source.s) && r.thumbnail == Thumbnail(PageData(summaryData, hit))
    ensures WellSpaced(r.description) && NoTag(r.description)
  {
    var source := DescriptionSource(PageData(summaryData, hit), hit);
    CleanWellSpaced(source.s);
    CleanNoTag(source.s);
  }

  /**
    When the text search returns normally: the payload is not nullish, and
    either there are no hits, or the hits form an array, the page details
    are not nullish, and every hit is an object-like value whose description
    text is a string.
  */
  lemma {:induction false} SearchWikipediaReturns(searchData: Value, summaryData: Value)
    ensures SearchWikipedia(searchData, summaryData).Returned? <==>
      !Nullish(searchData) &&
      (NoHits(searchData) ||
       (SearchList(searchData).Arr? && !Nullish(summaryData) &&
        forall i | 0 <= i < |HitList(searchData)| ::
          var hit := HitList(searchData)[i];
          !Nullish(hit) && DescriptionSource(PageData(summaryData, hit), hit).Str?))
  {
    if !Nullish(searchData) {
      if NoHits(searchData) {
        SearchWikipediaNoHits(searchData, summaryData);
      } else if SearchList(searchData).Arr? {
        ResultsFromHitList(searchData, summaryData);
        MapResultsReturns(summaryData, HitList(searchData));
      }
    }
  }

  /** With hits in an array, the text search returns exactly when mapping them does. */
  lemma {:induction false} ResultsFromHitList(searchData: Value, summaryData: Value)
    requires !Nullish(searchData) && !NoHits(searchData) && SearchList(searchData).Arr?
    ensures HitList(searchData) != []
    ensures SearchWikipedia(searchData, summaryData).Returned? <==>
      MapAll(HitList(searchData), hit => ToSearchResult(summaryData, hit)).Returned?
  {
  }

  /** Over a non-empty list of hits, `results.map` returns exactly when the page details and every hit are usable. */
  lemma {:induction false} MapResultsReturns(summaryData: Value, hits: seq<Value>)
    requires hits != []
    ensures MapAll(hits, hit => ToSearchResult(summaryData, hit)).Returned? <==>
      !Nullish(summaryData) &&
      forall i | 0 <= i < |hits| ::
        !Nullish(hits[i]) && DescriptionSource(PageData(summaryData, hits[i]), hits[i]).Str?
  {
    var f := hit => ToSearchResult(summaryData, hit);
    assert forall i | 0 <= i < |hits| :: f(hits[i]) == ToSearchResult(summaryData, hits[i]);
    if Nullish(summaryData) {
      assert ToSearchResult(summaryData, hits[0]) == Threw;
    } else {
      forall i | 0 <= i < |hits|
        ensures ToSearchResult(summaryData, hits[i]).Returned? <==>
          !Nullish(hits[i]) && DescriptionSource(PageData(summaryData, hits[i]), hits[i]).Str?
      {
        SearchHitReturns(summaryData, hits[i]);
      }
    }
  }

  /** The text-search callback returns exactly when the hit is not nullish and its description text is a string. */
  lemma {:induction false} SearchHitReturns(summaryData: Value, hit: Value)
    requires !Nullish(summaryData)
    ensures ToSearchResult(summaryData, hit).Returned? <==>
      !Nullish(hit) && DescriptionSource(PageData(summaryData, hit), hit).Str?
  {
  }


  // ---------------------------------------------------------------------
  // Image search
  // ---------------------------------------------------------------------

  /** `pat` occurs in `s` at position `k`. */
  predicate OccursAt(s: string, pat: string, k: nat) {
    k + |pat| <= |s| && s[k..k + |pat|] == pat
  }

  /** The first occurrence of `pat` in `s` at or after `from`. */
  function IndexOf(s: string, pat: string, from: nat): (r: Option<nat>)
    requires from <= |s|
    ensures r.Some? ==> from <= r.value && OccursAt(s, pat, r.value)
    ensures r.Some? ==> forall k | from <= k < r.value :: !OccursAt(s, pat, k)
    ensures r.None? ==> forall k | from <= k <= |s| :: !OccursAt(s, pat, k)
    decreases |s| - from
  {
    if from + |pat| > |s| then None
    else if s[from..from + |pat|] == pat then Some(from)
    else IndexOf(s, pat, from + 1)
  }

  /** `s.replace(pat, '')` with a string pattern: the first occurrence, if any, is removed. */
  function RemoveFirst(s: string, pat: string): (r: string)
    ensures IndexOf(s, pat, 0).None? ==> r == s
    ensures IndexOf(s, pat, 0).Some? ==>
      var k := IndexOf(s, pat, 0).value; r == s[..k] + s[k + |pat|..]
  {
    match IndexOf(s, pat, 0)
    case None => s
    case Some(k) => s[..k] + s[k + |pat|..]
  }

  /** `s` ends with `ext`, compared under the `i` flag. */
  predicate EndsWithIgnoringCase(s: string, ext: string) {
    |ext| <= |s| && LitAt(s, |s| - |ext|, ext, true)
  }

  const ImageExtensions: seq<string> := [".jpg", ".jpeg", ".png", ".gif", ".svg", ".webp"]

  /**
    The extension `/\.(jpg|jpeg|png|gif|svg|webp)$/i` matches at the end of
    `s`, if any. The leftmost match wins, so a four-letter extension is
    tried before a three-letter one (a string cannot end with both).
  */
  function MatchedExtension(s: string): (r: Option<string>)
    ensures r.Some? ==> r.value in ImageExtensions && EndsWithIgnoringCase(s, r.value)
    ensures r.None? ==> forall ext | ext in ImageExtensions :: !EndsWithIgnoringCase(s, ext)
  {
    if EndsWithIgnoringCase(s, ".jpeg") then Some(".jpeg")
    else if EndsWithIgnoringCase(s, ".webp") then Some(".webp")
    else if EndsWithIgnoringCase(s, ".jpg") then Some(".jpg")
    else if EndsWithIgnoringCase(s, ".png") then Some(".png")
    else if EndsWithIgnoringCase(s, ".gif") then Some(".gif")
    else if EndsWithIgnoringCase(s, ".svg") then Some(".svg")
    else None
  }

  /** `s.replace(/\.(jpg|jpeg|png|gif|svg|webp)$/i, '')`: at most one trailing image extension is removed. */
  function StripImageExtension(s: string): (r: string)
    ensures r <= s
    ensures MatchedExtension(s).None? ==> r == s
    ensures MatchedExtension(s).Some? ==> |r| == |s| - |MatchedExtension(s).value|
  {
    match MatchedExtension(s)
    case None => s
    case Some(ext) => s[..|s| - |ext|]
  }

  /** The displayed title of a media file: `File:` removed once, then one image extension. */
  function ImageTitle(title: string): (r: string)
    ensures r <= RemoveFirst(title, "File:") && |r| <= |title|
  {
    StripImageExtension(RemoveFirst(title, "File:"))
  }

  lemma {:induction false} EndsWithOwnExtension(name: string, ext: string)
    ensures EndsWithIgnoringCase(name + ext, ext)
  {
    var s := name + ext;
    forall j | 0 <= j < |ext| ensures CharMatch(s[|name| + j], ext[j], true) {
      assert s[|name| + j] == ext[j];
    }
  }

  /** An extension whose first letter differs from the letter after the dot cannot match. */
  lemma {:induction false} OtherExtensionFails(s: string, other: string)
    requires 2 <= |other| <= |s| + 1 && !CharMatch(s[|s| - |other| + 1], other[1], true)
    ensures !EndsWithIgnoringCase(s, other)
  {
  }

  /** The extension test recognises each image extension when it ends a name. */
  lemma {:induction false} MatchedOwnExtension(name: string, ext: string)
    requires ext in ImageExtensions
    ensures MatchedExtension(name + ext) == Some(ext)
  {
    var s := name + ext;
    EndsWithOwnExtension(name, ext);
    assert s[|s| - |ext|..] == ext;
    if |ext| == 5 {
      MatchedLongExtension(s, ext);
    } else {
      MatchedShortExtension(s, ext);
    }
  }

  lemma {:induction false} MatchedLongExtension(s: string, ext: string)
    requires ext == ".jpeg" || ext == ".webp"
    requires |ext| <= |s| && s[|s| - |ext|..] == ext && EndsWithIgnoringCase(s, ext)
    ensures MatchedExtension(s) == Some(ext)
  {
    if ext == ".webp" {
      assert s[|s| - 4] == 'w';
      OtherExtensionFails(s, ".jpeg");
    }
  }

  lemma {:induction false} MatchedShortExtension(s: string, ext: string)
    requires ext == ".jpg" || ext == ".png" || ext == ".gif" || ext == ".svg"
    requires |ext| <= |s| && s[|s| - |ext|..] == ext && EndsWithIgnoringCase(s, ext)
    ensures MatchedExtension(s) == Some(ext)
  {
    assert s[|s| - 4] == '.' && s[|s| - 3] == ext[1];
    NotLongExtension(s);
    if ext != ".jpg" {
      OtherExtensionFails(s, ".jpg");
      if ext != ".png" {
        OtherExtensionFails(s, ".png");
        if ext != ".gif" {
          OtherExtensionFails(s, ".gif");
        }
      }
    }
  }

  /** A name whose fourth character from the end is the dot cannot end with a four-letter extension. */
  lemma {:induction false} NotLongExtension(s: string)
    requires 4 <= |s| && s[|s| - 4] == '.'
    ensures !EndsWithIgnoringCase(s, ".jpeg") && !EndsWithIgnoringCase(s, ".webp")
  {
    if |s| >= 5 {
      OtherExtensionFails(s, ".jpeg");
      OtherExtensionFails(s, ".webp");
    }
  }

  /** A file page title built from a name and an image extension gives back the name. */
  lemma {:induction false} ImageTitleRoundTrip(name: string, ext: string)
    requires ext in ImageExtensions
    ensures ImageTitle("File:" + name + ext) == name
  {
    var title := "File:" + name + ext;
    assert OccursAt(title, "File:", 0);
    assert RemoveFirst(title, "File:") == name + ext;
    MatchedOwnExtension(name, ext);
    assert (name + ext)[..|name|] == name;
  }

  /** The first `File:` is removed wherever it stands, and only that one; the extension test ignores case. */
  lemma {:induction false} ImageTitleExample()
    ensures ImageTitle("A File:b.JPG") == "A b"
  {
    RemoveFirstExample();
    StripExtensionExample();
  }

  lemma {:induction false} RemoveFirstExample()
    ensures RemoveFirst("A File:b.JPG", "File:") == "A b.JPG"
  {
    var s := "A File:b.JPG";
    assert s[0..5][0] != "File:"[0] && s[1..6][0] != "File:"[0];
    assert OccursAt(s, "File:", 2);
  }

  lemma {:induction false} StripExtensionExample()
    ensures StripImageExtension("A b.JPG") == "A b"
  {
    var t := "A b.JPG";
    assert t[3] == '.';
    NotLongExtension(t);
    assert CharMatch(t[3], '.', true) && CharMatch(t[4], 'j', true);
    assert CharMatch(t[5], 'p', true) && CharMatch(t[6], 'g', true);
    forall j | 0 <= j < 4 ensures CharMatch(t[3 + j], ".jpg"[j], true) {
      assert j == 0 || j == 1 || j == 2 || j == 3;
    }
    var r := StripImageExtension(t);
    assert |r| == 3 && r <= t;
    assert r[0] == 'A' && r[1] == ' ' && r[2] == 'b';
  }

  /** The image information of a page: `pageData?.imageinfo?.[0]`. */
  function ImageInfo(pageData: Value): Value {
    Chain(Chain(pageData, "imageinfo"), "0")
  }

  /** `imageInfo?.extmetadata?.[field]?.value || 'Unknown'`. */
  function MetadataOrUnknown(imageInfo: Value, field: string): (r: Value)
    ensures Truthy(r)
    ensures Truthy(Chain(Chain(Chain(imageInfo, "extmetadata"), field), "value")) ==>
      r == Chain(Chain(Chain(imageInfo, "extmetadata"), field), "value")
    ensures !Truthy(Chain(Chain(Chain(imageInfo, "extmetadata"), field), "value")) ==> r == Str("Unknown")
  {
    Or(Chain(Chain(Chain(imageInfo, "extmetadata"), field), "value"), Str("Unknown"))
  }

  /**
    The `results.map` callback of `searchWikimediaImages`. Besides the
    throws of the text search, `pageid.toString()` throws on a nullish id
    and `title.replace` on a title that is not a string.
  */
  function ToImageResult(imageData: Value, hit: Value): (r: Outcome<ImageSearchResult>)
    ensures r.Returned? ==> !Nullish(imageData) && !Nullish(hit) && !Nullish(Prop(hit, "pageid"))
    ensures r.Returned? ==> Prop(hit, "title").Str? && r.value.title == ImageTitle(Prop(hit, "title").s)
    ensures r.Returned? ==> r.value.id == ToJsString(Prop(hit, "pageid"))
    ensures r.Returned? ==> Truthy(r.value.author) && Truthy(r.value.license)
  {
    if Nullish(imageData) || Nullish(hit) then Threw
    else
      var pageData := PageData(imageData, hit);
      var imageInfo := ImageInfo(pageData);
      var pageId := Prop(hit, "pageid");
      var title := Prop(hit, "title");
      var source := DescriptionSource(pageData, hit);
      if Nullish(pageId) || !title.Str? || !source.Str? then Threw
      else
        Returned(ImageSearchResult(
          ToJsString(pageId),
          ImageTitle(title.s),
          Clean(source.s),
          Or(Chain(imageInfo, "url"), Str("")),
          MetadataOrUnknown(imageInfo, "Artist"),
          MetadataOrUnknown(imageInfo, "License")))
  }

  /** The `filter` callback: `result.imageUrl` is truthy. */
  predicate HasImage(r: ImageSearchResult) {
    Truthy(r.imageUrl)
  }

  /** All mapped entries, before the filter. */
  function MapImageResults(imageData: Value, hits: seq<Value>): Outcome<seq<ImageSearchResult>> {
    MapAll(hits, hit => ToImageResult(imageData, hit))
  }

  /** `searchWikimediaImages` after both fetches. */
  function SearchWikimediaImages(searchData: Value, imageData: Value): (r: Outcome<seq<ImageSearchResult>>)
    ensures r.Returned? ==> !Nullish(searchData) && |r.value| <= |HitList(searchData)|
    ensures r.Returned? ==> forall x | x in r.value :: Truthy(x.imageUrl)
  {
    match Hits(searchData)
    case Threw => Threw
    case Returned(hits) =>
      match MapImageResults(imageData, hits)
      case Threw => Threw
      case Returned(mapped) => Returned(Filter(mapped, HasImage))
  }

  /** A search payload without a non-empty `query.search` list gives no images. */
  lemma {:induction false} SearchImagesNoHits(searchData: Value, imageData: Value)
    requires !Nullish(searchData) && NoHits(searchData)
    ensures SearchWikimediaImages(searchData, imageData) == Returned([])
  {
    assert MapImageResults(imageData, []) == Returned([]);
  }

  /**
    The images returned are the mapped hits, one per hit in hit order, with
    the entries whose `imageUrl` is falsy removed and the order kept: an
    entry is returned exactly when its `imageUrl` is truthy, and the
    returned sequence distributes over any split of the mapped one.
  */
  lemma {:induction false} SearchImagesFilter(searchData: Value, imageData: Value, rs: seq<ImageSearchResult>)
    requires SearchWikimediaImages(searchData, imageData) == Returned(rs)
    ensures !Nullish(searchData)
    ensures var hits := if NoHits(searchData) then [] else HitList(searchData);
      MapImageResults(imageData, hits).Returned? &&
      var mapped := MapImageResults(imageData, hits).value;
      |mapped| == |hits| && rs == Filter(mapped, HasImage) &&
      (forall i | 0 <= i < |hits| :: ToImageResult(imageData, hits[i]) == Returned(mapped[i])) &&
      (forall r | r in mapped :: r in rs <==> Truthy(r.imageUrl)) &&
      (forall k | 0 <= k <= |mapped| :: rs == Filter(mapped[..k], HasImage) + Filter(mapped[k..], HasImage))
    ensures forall r | r in rs :: Truthy(r.imageUrl)
  {
    var hits := if NoHits(searchData) then [] else HitList(searchData);
    HitsAreHitList(searchData);
    assert Hits(searchData).value == hits;
    var mapped := MapImageResults(imageData, hits).value;
    FilterSpec(mapped, HasImage);
  }

  /**
    Each mapped image entry: the id is the hit's `pageid` as a string, the
    title is the rewritten hit title, the description is the cleaned text
    as in the text search, and author and license fall back to `"Unknown"`
    and are never falsy.
  */
  lemma {:induction false} ImageResultFields(imageData: Value, hit: Value, r: ImageSearchResult)
    requires ToImageResult(imageData, hit) == Returned(r)
    ensures !Nullish(imageData) && !Nullish(hit) && !Nullish(Prop(hit, "pageid")) && Prop(hit, "title").Str?
    ensures r.id == ToJsString(Prop(hit, "pageid")) && r.title == ImageTitle(Prop(hit, "title").s)
    ensures var pageData := PageData(imageData, hit);
      var source := DescriptionSource(pageData, hit);
      source.Str? && r.description == Clean(source.s) && WellSpaced(r.description) && NoTag(r.description)
    ensures Truthy(r.author) && Truthy(r.license)
    ensures var info := ImageInfo(PageData(imageData, hit));
      (Truthy(Chain(info, "url")) ==> r.imageUrl == Chain(info, "url")) &&
      (!Truthy(Chain(info, "url")) ==> r.imageUrl == Str("")) &&
      r.author == MetadataOrUnknown(info, "Artist") && r.license == MetadataOrUnknown(info, "License")
  {
    var pageData := PageData(imageData, hit);
    var source := DescriptionSource(pageData, hit);
    CleanWellSpaced(source.s);
    CleanNoTag(source.s);
  }

  /**
    When the image search returns normally: as for the text search, and in
    addition every hit has a `pageid` that is not nullish and a string title.
  */
  lemma {:induction false} SearchImagesReturns(searchData: Value, imageData: Value)
    ensures SearchWikimediaImages(searchData, imageData).Returned? <==>
      !Nullish(searchData) &&
      (NoHits(searchData) ||
       (SearchList(searchData).Arr? && !Nullish(imageData) &&
        forall i | 0 <= i < |HitList(searchData)| ::
          var hit := HitList(searchData)[i];
          !Nullish(hit) && !Nullish(Prop(hit, "pageid")) && Prop(hit, "title").Str? &&
          DescriptionSource(PageData(imageData, hit), hit).Str?))
  {
    if !Nullish(searchData) {
      if NoHits(searchData) {
        SearchImagesNoHits(searchData, imageData);
      } else if SearchList(searchData).Arr? {
        ImagesFromHitList(searchData, imageData);
        MapImagesReturns(imageData, HitList(searchData));
      }
    }
  }

  /** With hits in an array, the image search returns exactly when mapping them does. */
  lemma {:induction false} ImagesFromHitList(searchData: Value, imageData: Value)
    requires !Nullish(searchData) && !NoHits(searchData) && SearchList(searchData).Arr?
    ensures HitList(searchData) != []
    ensures SearchWikimediaImages(searchData, imageData).Returned? <==>
      MapImageResults(imageData, HitList(searchData)).Returned?
  {
  }

  /** Over a non-empty list of hits, the image `results.map` returns exactly when the page details and every hit are usable. */
  lemma {:induction false} MapImagesReturns(imageData: Value, hits: seq<Value>)
    requires hits != []
    ensures MapImageResults(imageData, hits).Returned? <==>
      !Nullish(imageData) &&
      forall i | 0 <= i < |hits| ::
        !Nullish(hits[i]) && !Nullish(Prop(hits[i], "pageid")) && Prop(hits[i], "title").Str? &&
        DescriptionSource(PageData(imageData, hits[i]), hits[i]).Str?
  {
    var f := hit => ToImageResult(imageData, hit);
    assert forall i | 0 <= i < |hits| :: f(hits[i]) == ToImageResult(imageData, hits[i]);
    if Nullish(imageData) {
      assert ToImageResult(imageData, hits[0]) == Threw;
    } else {
      forall i | 0 <= i < |hits|
        ensures ToImageResult(imageData, hits[i]).Returned? <==>
          !Nullish(hits[i]) && !Nullish(Prop(hits[i], "pageid")) && Prop(hits[i], "title").Str? &&
          DescriptionSource(PageData(imageData, hits[i]), hits[i]).Str?
      {
        ImageHitReturns(imageData, hits[i]);
      }
    }
  }

  /** The image callback returns exactly when the hit, its `pageid`, its title and its description text are usable. */
  lemma {:induction false} ImageHitReturns(imageData: Value, hit: Value)
    requires !Nullish(imageData)
    ensures ToImageResult(imageData, hit).Returned? <==>
      !Nullish(hit) && !Nullish(Prop(hit, "pageid")) && Prop(hit, "title").Str? &&
      DescriptionSource(PageData(imageData, hit), hit).Str?
  {
  }

}
