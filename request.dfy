/**
 * The HTML scraper that fetches all product pages at once: it waits for every
 * response (`Promise.all`), then builds one record per response in order, and
 * gives up on the whole batch at the first response whose status is not 200.
 *
 * The HTTP requests and the HTML selectors are not modelled: `fetch` gives,
 * for a URL, either a failed request or a response carrying its status, its
 * final URL and the texts the three selectors extract.
 */
module Request {
  import opened JsText
  import opened JsValues
  import Prices

  /** The currency marker this shop's prices carry. */
  const Symbol := "EUR"

  /** `parsePrice(price)`: the first "EUR" and the first "," go, then unary `+`. */
  function ParsePrice(price: string): Number {
    Prices.ParsePrice(Symbol, price)
  }

  /** A price with several ","s keeps all but the first: "1,000,000" becomes "1000,000". */
  lemma StripPriceKeepsLaterCommas(s: string)
    requires s == "1,000,000"
    ensures Prices.StripPrice(Symbol, s) == "1000,000"
  {
    assert ReplaceFirst(s, Symbol, "") == s by {
      IndexOfFindsFirstChar(s, Symbol);
    }
    assert IndexOf(s, ",") == 1 by {
      assert !OccursAt(s, ",", 0) && OccursAt(s, ",", 1) by {
        assert s[0..1] == "1" && s[1..2] == ",";
      }
      IndexOfIs(s, ",", 1);
    }
    assert s[..1] + s[2..] == "1000,000";
  }

  /**
   * The texts the page's selectors give: the `h1`, the element whose class
   * contains "-isDiscounted-true", and the previous-price paragraph. A selector
   * that matches nothing gives "".
   */
  datatype ProductPage = ProductPage(heading: string, discountedText: string, previousPriceText: string)

  /** A response: its status code, its final URL and its page. */
  datatype HtmlResponse = HtmlResponse(statusCode: int, url: string, page: ProductPage)

  /** What the request for a URL gives: a request that throws, or a response. */
  datatype PageFetch = RequestFailed | Received(response: HtmlResponse)

  /**
   * The record for one response: the title and both price texts are trimmed,
   * both prices go through `parsePrice`, and the currency is always "EUR".
   */
  function RecordOf(response: HtmlResponse): (r: ProductRecord)
    ensures r.url == " " + response.url && r.apiUrl == None && r.currency == Str("EUR")
    ensures r.title == Str(Trim(response.page.heading))
    ensures r.fullPrice == Num(ParsePrice(Trim(response.page.previousPriceText)))
    ensures r.discountedPrice == Num(ParsePrice(Trim(response.page.discountedText)))
  {
    var page := response.page;
    var title := Trim(page.heading);
    var discountedPrice := Trim(page.discountedText);
    var price := Trim(page.previousPriceText);
    var fullPrice := ParsePrice(price);
    ProductRecord(
      url := " " + response.url,
      apiUrl := None,
      fullPrice := Num(fullPrice),
      discountedPrice := Coalesce(Num(ParsePrice(discountedPrice)), Num(fullPrice)),
      currency := Str("EUR"),
      title := Str(title))
  }

  /**
   * The `?? fullPrice` fallback never applies: `parsePrice` always gives a
   * number, so the discounted price is the parsed discounted text whatever it
   * holds, and the full price plays no part in it.
   */
  lemma DiscountNeverFallsBack(response: HtmlResponse, other: HtmlResponse)
    requires response.page.discountedText == other.page.discountedText
    ensures RecordOf(response).discountedPrice == Num(ParsePrice(Trim(response.page.discountedText)))
    ensures RecordOf(response).discountedPrice == RecordOf(other).discountedPrice
  {
    var d := Num(ParsePrice(Trim(response.page.discountedText)));
    NumberNeverFallsBack(d.n, Num(ParsePrice(Trim(response.page.previousPriceText))));
    NumberNeverFallsBack(d.n, Num(ParsePrice(Trim(other.page.previousPriceText))));
  }

  /**
   * A page without a discounted-price element gets 0 as its discounted price,
   * not its full price.
   */
  lemma MissingDiscountIsZero(response: HtmlResponse)
    requires IsBlank(response.page.discountedText)
    ensures RecordOf(response).discountedPrice == Num(Zero)
  {
    TrimEmptyIffBlank(response.page.discountedText);
    Prices.ParsePriceOfNothing(Symbol);
  }

  /** For instance a page priced "EUR 120" without a discount: 120 in full, 0 discounted. */
  lemma MissingDiscountExample(response: HtmlResponse)
    requires response.page.discountedText == "" && response.page.previousPriceText == "EUR 120"
    ensures RecordOf(response).fullPrice == Num(NumberOf("120"))
    ensures RecordOf(response).discountedPrice == Num(Zero)
  {
    MissingDiscountIsZero(response);
    var s := response.page.previousPriceText;
    assert Trim(s) == s by {
      assert TrimStart(s) == s;
      assert TrimEnd(s) == s;
    }
    ParsePriceOfEuroAmount(s);
  }

  /** "EUR 120" parses to 120: the "EUR" goes and the space is trimmed by the conversion. */
  lemma ParsePriceOfEuroAmount(s: string)
    requires s == "EUR 120"
    ensures ParsePrice(s) == NumberOf("120")
  {
    StripPriceOfEuroAmount(s);
    var t := Prices.StripPrice(Symbol, s);
    assert Trim(t) == "120" by {
      assert TrimStart(t) == t[1..];
      assert TrimEnd(t[1..]) == t[1..];
    }
  }

  /** Stripping "EUR 120" removes the "EUR" and nothing else. */
  lemma StripPriceOfEuroAmount(s: string)
    requires s == "EUR 120"
    ensures Prices.StripPrice(Symbol, s) == s[3..]
  {
    assert ReplaceFirst(s, Symbol, "") == s[3..] by {
      IndexOfIs(s, Symbol, 0);
    }
    IndexOfFindsFirstChar(s[3..], ",");
  }

  /**
   * `Promise.all` over the requests: the responses in URL order, or `None`
   * when any request throws.
   */
  function AwaitAll(urls: seq<string>, fetch: string -> PageFetch): (r: Option<seq<HtmlResponse>>)
    ensures r.Some? <==> forall i :: 0 <= i < |urls| ==> fetch(urls[i]).Received?
    ensures r.Some? ==>
      && |r.value| == |urls|
      && forall i :: 0 <= i < |urls| ==> r.value[i] == fetch(urls[i]).response
  {
    if urls == [] then Some([])
    else
      match fetch(urls[0])
      case RequestFailed => None
      case Received(response) =>
        match AwaitAll(urls[1..], fetch)
        case None => None
        case Some(rest) => Some([response] + rest)
  }

  /** Every response has status 200. */
  predicate AllOk(responses: seq<HtmlResponse>) {
    forall i :: 0 <= i < |responses| ==> responses[i].statusCode == 200
  }

  /**
   * The loop over the awaited responses: the record of each response, in
   * order, or `None` at the first response whose status is not 200.
   */
  method RecordsOf(responses: seq<HtmlResponse>) returns (results: Option<seq<ProductRecord>>)
    ensures results.Some? <==> AllOk(responses)
    ensures results.Some? ==>
      && |results.value| == |responses|
      && forall i :: 0 <= i < |responses| ==> results.value[i] == RecordOf(responses[i])
  {
    var records: seq<ProductRecord> := [];
    for i := 0 to |responses|
      invariant |records| == i
      invariant forall j :: 0 <= j < i ==> responses[j].statusCode == 200
      invariant forall j :: 0 <= j < i ==> records[j] == RecordOf(responses[j])
    {
      if responses[i].statusCode != 200 {
        return None;
      }
      records := records + [RecordOf(responses[i])];
    }
    return Some(records);
  }

  /**
   * `scrapeUrls(urls)`: `Some` of the records that are written to the output
   * file, one per URL in URL order, or `None` when a request throws or a
   * status is not 200; then the records built so far are dropped and nothing
   * is written.
   */
  method ScrapeUrls(urls: seq<string>, fetch: string -> PageFetch)
    returns (saved: Option<seq<ProductRecord>>)
    ensures saved.Some? <==>
      forall i :: 0 <= i < |urls| ==>
        fetch(urls[i]).Received? && fetch(urls[i]).response.statusCode == 200
    ensures saved.Some? ==>
      && |saved.value| == |urls|
      && forall i :: 0 <= i < |urls| ==> saved.value[i] == RecordOf(fetch(urls[i]).response)
  {
    var responses := AwaitAll(urls, fetch);
    if responses.None? {
      return None;
    }
    saved := RecordsOf(responses.value);
  }
}
