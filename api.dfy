/**
 * The API scraper: it derives a product id from each product page URL, builds
 * the URL of the shop's product API from it, turns the API's answer into a
 * product record, and collects one entry per page URL, in order, where a
 * failed page gives an `undefined` entry (`None`) instead of stopping the run.
 *
 * The HTTP request and `JSON.parse` are not modelled: `fetch` gives, for an API
 * URL, either a failed request or a status code with the parsed body.
 */
module Api {
  import opened JsText
  import opened JsValues

  const ApiProductsBaseUrl :=
    "https://www.stoneisland.com/on/demandware.store/Sites-StoneEU-Site/en_IT/ProductApi-Product"

  /** The collection both product pages belong to. */
  const CollectionUrl := "https://www.stoneisland.com/en-it/collection/polos-and-t-shirts/"

  /**
   * The two product pages the script crawls, each written as the collection,
   * the product's slug, "-", its product id and ".html".
   */
  const Urls := [
    CollectionUrl + "slim-fit-short-sleeve-polo-shirt-2sc17-stretch-organic-cotton-pique" + "-" + "81152SC17A0029" + ".html",
    CollectionUrl + "short-sleeve-polo-shirt-22r39-50-2-organic-cotton-pique" + "-" + "811522R39V0097" + ".html"
  ]

  /**
   * `url.split("-").at(-1).split(".")[0]`. Total: a split always has a piece,
   * so both the last and the first piece exist.
   */
  function ExtractProductId(url: string): (pid: string)
    ensures '-' !in pid && '.' !in pid
  {
    var pieces := Split(url, '-');
    Split(pieces[|pieces| - 1], '.')[0]
  }

  /** The product id is the "."-free start of the text after the last "-". */
  lemma ProductIdInTail(url: string)
    ensures var pid, tail := ExtractProductId(url), url[LastIndexOf(url, '-') + 1..];
      |pid| <= |tail| && tail[..|pid|] == pid && (|pid| == |tail| || tail[|pid|] == '.')
  {
    var pieces := Split(url, '-');
    SplitLast(url, '-');
    assert ExtractProductId(url) == Split(pieces[|pieces| - 1], '.')[0];
  }

  /**
   * Where the product id sits in the URL: it starts right after the last "-"
   * (at the start when the URL has no "-"), and is followed by the end of the
   * URL or by a "." (the first "." after that "-").
   */
  lemma ProductIdAtTail(url: string)
    ensures var pid, start := ExtractProductId(url), LastIndexOf(url, '-') + 1;
      && start + |pid| <= |url|
      && url[start..start + |pid|] == pid
      && (start + |pid| == |url| || url[start + |pid|] == '.')
      && '-' !in url[start..]
      && (start > 0 <==> '-' in url)
      && (start > 0 ==> url[start - 1] == '-')
  {
    var pid, start := ExtractProductId(url), LastIndexOf(url, '-') + 1;
    ProductIdInTail(url);
    PieceAt(url, start, pid);
    AfterLastDash(url);
  }

  /** A prefix of `url[start..]` is the slice of `url` at `start`, and what follows it there follows it in `url`. */
  lemma PieceAt(url: string, start: nat, pid: string)
    requires start <= |url| && |pid| <= |url| - start && url[start..][..|pid|] == pid
    requires |pid| == |url| - start || url[start..][|pid|] == '.'
    ensures start + |pid| <= |url| && url[start..start + |pid|] == pid
    ensures start + |pid| == |url| || url[start + |pid|] == '.'
  {
    assert url[start..start + |pid|] == url[start..][..|pid|];
    if |pid| < |url| - start {
      assert url[start..][|pid|] == url[start + |pid|];
    }
  }

  /** The text after the last "-" holds no "-", and that "-" exists exactly when the URL has one. */
  lemma AfterLastDash(url: string)
    ensures var start := LastIndexOf(url, '-') + 1;
      && '-' !in url[start..]
      && (start > 0 <==> '-' in url)
      && (start > 0 ==> url[start - 1] == '-')
  {
    var start := LastIndexOf(url, '-') + 1;
    forall k | 0 <= k < |url| - start ensures url[start..][k] != '-' {
      assert url[start..][k] == url[start + k];
    }
    LastIndexOfFinds(url, '-');
  }

  /**
   * Conversely, a "-"-free, "."-free piece placed as `ProductIdAtTail`
   * describes is the product id: the description determines it.
   */
  lemma ProductIdUnique(url: string, start: nat, pid: string)
    requires start + |pid| <= |url| && url[start..start + |pid|] == pid
    requires '-' !in url[start..] && (start == 0 || url[start - 1] == '-')
    requires '.' !in pid && (start + |pid| == |url| || url[start + |pid|] == '.')
    ensures ExtractProductId(url) == pid
  {
    assert LastIndexOf(url, '-') + 1 == start by {
      forall k | start <= k < |url| ensures url[k] != '-' {
        assert url[k] == url[start..][k - start];
      }
    }
    var tail := url[start..];
    SplitLast(url, '-');
    assert tail[..|pid|] == pid;
    assert |pid| < |tail| ==> tail[|pid|] == url[start + |pid|];
    FirstPieceUnique(tail, '.', pid);
  }

  /** The product API URL for a product id: the base URL, "?pid=", then the id. */
  function ProductUrl(pid: string): (apiUrl: string)
    ensures |apiUrl| == |ApiProductsBaseUrl| + 5 + |pid|
    ensures apiUrl[..|ApiProductsBaseUrl|] == ApiProductsBaseUrl
    ensures apiUrl[|ApiProductsBaseUrl|..|ApiProductsBaseUrl| + 5] == "?pid="
    ensures apiUrl[|ApiProductsBaseUrl| + 5..] == pid
  {
    ApiProductsBaseUrl + "?pid=" + pid
  }

  /** Different product ids give different API URLs. */
  lemma ProductUrlInjective(a: string, b: string)
    requires ProductUrl(a) == ProductUrl(b)
    ensures a == b
  {
    assert a == ProductUrl(a)[|ApiProductsBaseUrl| + 5..];
  }

  /** A page URL ending in "-", a product id and ".html" gives that id. */
  lemma ProductIdOfPageUrl(prefix: string, pid: string)
    requires '-' !in pid && '.' !in pid
    ensures ExtractProductId(prefix + "-" + pid + ".html") == pid
  {
    var url := prefix + "-" + pid + ".html";
    var start := |prefix| + 1;
    assert url[start..] == pid + ".html";
    assert url[start..start + |pid|] == pid;
    ProductIdUnique(url, start, pid);
  }

  /** The hard-coded pages' product ids are "81152SC17A0029" and "811522R39V0097". */
  lemma UrlsProductIds()
    ensures ExtractProductId(Urls[0]) == "81152SC17A0029"
    ensures ExtractProductId(Urls[1]) == "811522R39V0097"
  {
    ProductIdOfPageUrl(CollectionUrl + "slim-fit-short-sleeve-polo-shirt-2sc17-stretch-organic-cotton-pique", "81152SC17A0029");
    ProductIdOfPageUrl(CollectionUrl + "short-sleeve-polo-shirt-22r39-50-2-organic-cotton-pique", "811522R39V0097");
  }

  /** The API URL the script requests for a product page. */
  function ApiUrlFor(url: string): string {
    ProductUrl(ExtractProductId(url))
  }

  /** `price.sales` of the API answer. */
  datatype Sales = Sales(value: JsValue, currency: JsValue, discountedPrice: JsValue)

  /**
   * The parsed API answer. `sales` is `None` when `price` or `price.sales` is
   * `null` or `undefined`, so that reading it throws.
   */
  datatype ProductData = ProductData(productName: JsValue, sales: Option<Sales>)

  /**
   * What the request for an API URL gives: a request that throws, or a status
   * code and a body, `None` when `JSON.parse` throws or the body is `null`.
   */
  datatype ApiFetch =
    | RequestFailed
    | ApiResponse(statusCode: int, body: Option<ProductData>)

  /** The answer gets as far as the record: status 200 and a readable `price.sales`. */
  predicate Usable(f: ApiFetch) {
    f.ApiResponse? && f.statusCode == 200 && f.body.Some? && f.body.value.sales.Some?
  }

  /**
   * `scrape(url)`: the record for one product page, or `None` (the function
   * returns `undefined` after logging) when anything on the way throws.
   */
  function Scrape(url: string, fetch: string -> ApiFetch): (r: Option<ProductRecord>)
    ensures r.Some? <==> Usable(fetch(ApiUrlFor(url)))
    ensures r.Some? ==>
      var sales := fetch(ApiUrlFor(url)).body.value.sales.value;
      && r.value.url == " " + url
      && r.value.apiUrl == Some(" " + ApiUrlFor(url))
      && r.value.fullPrice == Num(Plus(sales.value))
      && r.value.discountedPrice == Num(Plus(sales.discountedPrice))
      && r.value.currency == sales.currency
      && r.value.title == fetch(ApiUrlFor(url)).body.value.productName
  {
    var productUrl := ProductUrl(ExtractProductId(url));
    match fetch(productUrl)
    case RequestFailed => None
    case ApiResponse(statusCode, body) =>
      if statusCode != 200 then None
      else
        match body
        case None => None
        case Some(data) =>
          match data.sales
          case None => None
          case Some(sales) =>
            Some(ProductRecord(
              url := " " + url,
              apiUrl := Some(" " + productUrl),
              fullPrice := Num(Plus(sales.value)),
              discountedPrice := Coalesce(Num(Plus(sales.discountedPrice)), Num(Plus(sales.value))),
              currency := sales.currency,
              title := data.productName))
  }

  /**
   * A product whose answer has no `discountedPrice` gets NaN as its discounted
   * price, whatever its full price: the `?? +fullPrice` fallback never applies.
   */
  lemma MissingDiscountIsNaN(url: string, fetch: string -> ApiFetch)
    requires Usable(fetch(ApiUrlFor(url)))
    requires fetch(ApiUrlFor(url)).body.value.sales.value.discountedPrice == Undefined
    ensures Scrape(url, fetch).Some?
    ensures Scrape(url, fetch).value.discountedPrice == Num(NaN)
  {
  }

  /**
   * `scrapeUrls(urls)`: one entry per URL, in order; a page that fails gives
   * `None` in its place and the loop goes on. `results` is what the script
   * writes to its output file.
   */
  method ScrapeUrls(urls: seq<string>, fetch: string -> ApiFetch)
    returns (results: seq<Option<ProductRecord>>)
    ensures |results| == |urls|
    ensures forall i :: 0 <= i < |urls| ==> results[i] == Scrape(urls[i], fetch)
    ensures forall i :: 0 <= i < |urls| ==> (results[i].None? <==> !Usable(fetch(ApiUrlFor(urls[i]))))
  {
    results := [];
    for i := 0 to |urls|
      invariant |results| == i
      invariant forall j :: 0 <= j < i ==> results[j] == Scrape(urls[j], fetch)
    {
      results := results + [Scrape(urls[i], fetch)];
    }
  }
}
