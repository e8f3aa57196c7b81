/**
  `parseWikipediaContent` from src/lib/index.ts: the page HTML in a
  revisions response, found through `query.pages`, the first page key,
  its first revision and that revision's `*` field. Every missing link,
  and every read that would throw, gives the empty string.
*/
module Content {
  import opened JsValue

  /**
    The body of the `try` block: the value it returns, or `Threw` when a
    property read on `null` or `undefined` throws.
  */
  function ParseBody(apiResponse: Value): (r: Outcome<Value>)
    ensures r.Returned? ==> r.value == Str("") || Truthy(r.value)
  {
    if Nullish(apiResponse) then Threw
    else
      var pages := Chain(Prop(apiResponse, "query"), "pages");
      if !Truthy(pages) then Returned(Str(""))
      else
        var keys := OwnKeys(pages);
        var pageId := if |keys| > 0 then Str(keys[0]) else Undefined;
        var page := Prop(pages, ToJsString(pageId));
        if Nullish(page) then Threw
        else
          var revisions := Prop(page, "revisions");
          if !Truthy(revisions) then Returned(Str(""))
          else
            var first := Prop(revisions, "0");
            if !Truthy(first) then Returned(Str(""))
            else
              var html := Prop(first, "*");
              if !Truthy(html) then Returned(Str("")) else Returned(html)
  }

  /** `parseWikipediaContent`: the `catch` turns a throw into `''`. */
  function ParseWikipediaContent(apiResponse: Value): (r: Value)
    ensures r == Str("") || Truthy(r)
  {
    match ParseBody(apiResponse)
    case Threw => Str("")
    case Returned(v) => v
  }

  /** `apiResponse.query?.pages`. */
  function Pages(apiResponse: Value): Value
    requires !Nullish(apiResponse)
  {
    Chain(Prop(apiResponse, "query"), "pages")
  }

  /** The page the function reads: the value under the first key of `pages`. */
  function FirstPage(pages: Value): Value
    requires !Nullish(pages)
  {
    var keys := OwnKeys(pages);
    Prop(pages, if |keys| > 0 then keys[0] else "undefined")
  }

  /** A `null` or `undefined` response, or one without truthy `query.pages`, gives `''`. */
  lemma {:induction false} NoPagesGivesEmpty(apiResponse: Value)
    requires Nullish(apiResponse) || !Truthy(Pages(apiResponse))
    ensures ParseWikipediaContent(apiResponse) == Str("")
  {
  }

  /**
    A `pages` value without keys gives `''`: the page read under the key
    `undefined` is `undefined`, and reading its `revisions` throws.
  */
  lemma {:induction false} NoPageKeysGivesEmpty(apiResponse: Value)
    requires !Nullish(apiResponse) && Truthy(Pages(apiResponse)) && OwnKeys(Pages(apiResponse)) == []
    ensures ParseWikipediaContent(apiResponse) == Str("")
  {
    var pages := Pages(apiResponse);
    assert ToJsString(Undefined) == "undefined";
    if pages.Obj? {
      assert |pages.fields| == 0;
    }
  }

  /** A first page without truthy `revisions`, or without a truthy `revisions[0]`, gives `''`. */
  lemma {:induction false} NoRevisionGivesEmpty(apiResponse: Value)
    requires !Nullish(apiResponse) && Truthy(Pages(apiResponse))
    requires var page := FirstPage(Pages(apiResponse));
      Nullish(page) || !Truthy(Prop(page, "revisions")) || !Truthy(Prop(Prop(page, "revisions"), "0"))
    ensures ParseWikipediaContent(apiResponse) == Str("")
  {
    var pages := Pages(apiResponse);
    var keys := OwnKeys(pages);
    assert |keys| > 0 ==> ToJsString(Str(keys[0])) == keys[0];
  }

  /**
    Past the checks, the result is exactly the `*` field of the first
    page's first revision when that is truthy, and `''` when it is not.
  */
  lemma {:induction false} FirstRevisionContent(apiResponse: Value)
    requires !Nullish(apiResponse) && Truthy(Pages(apiResponse))
    requires var page := FirstPage(Pages(apiResponse));
      !Nullish(page) && Truthy(Prop(page, "revisions")) && Truthy(Prop(Prop(page, "revisions"), "0"))
    ensures var html := Prop(Prop(Prop(FirstPage(Pages(apiResponse)), "revisions"), "0"), "*");
      ParseWikipediaContent(apiResponse) == if Truthy(html) then html else Str("")
  {
    var pages := Pages(apiResponse);
    var keys := OwnKeys(pages);
    assert |keys| > 0 ==> ToJsString(Str(keys[0])) == keys[0];
  }

  /** The response shape the function expects, for one page id and its revision HTML, followed by other pages. */
  function RevisionsResponse(pageId: string, html: string, otherPages: seq<(string, Value)>): Value {
    Obj([("query", Obj([("pages", Obj([(pageId, RevisionPage(html))] + otherPages))]))])
  }

  /**
    The HTML placed in the first page's first revision comes back out; the
    pages `Object.keys` lists after it are not looked at. The pages object
    must be one `JSON.parse` can build, with its pairs in `Object.keys` order:
    for numeric page ids that means `pageId` is the smallest.
  */
  lemma {:induction false} RevisionsResponseRoundTrip(pageId: string, html: string, otherPages: seq<(string, Value)>)
    requires WellFormedFields([(pageId, RevisionPage(html))] + otherPages)
    ensures ParseWikipediaContent(RevisionsResponse(pageId, html, otherPages)) == Str(html)
  {
    var response := RevisionsResponse(pageId, html, otherPages);
    RevisionsResponseFirstPage(pageId, html, otherPages);
    RevisionPageContent(html);
    FirstRevisionContent(response);
  }

  /** A revision page holding `html` as the content of its only revision. */
  function RevisionPage(html: string): Value {
    Obj([("revisions", Arr([Obj([("*", Str(html))])]))])
  }

  lemma {:induction false} RevisionsResponseFirstPage(pageId: string, html: string, otherPages: seq<(string, Value)>)
    ensures var response := RevisionsResponse(pageId, html, otherPages);
      !Nullish(response) && Truthy(Pages(response)) && FirstPage(Pages(response)) == RevisionPage(html)
  {
    var pages := Pages(RevisionsResponse(pageId, html, otherPages));
    assert pages == Obj([(pageId, RevisionPage(html))] + otherPages);
    assert OwnKeys(pages)[0] == pageId;
  }

  lemma {:induction false} RevisionPageContent(html: string)
    ensures var page := RevisionPage(html);
      !Nullish(page) && Truthy(Prop(page, "revisions")) && Truthy(Prop(Prop(page, "revisions"), "0")) &&
      Prop(Prop(Prop(page, "revisions"), "0"), "*") == Str(html)
  {
    assert ArrayIndex("0") == Some(0);
  }
}
