/**
 * The browser scraper: it opens each product page in a headless browser,
 * reads the page title and the final price, and builds a record whose
 * discounted price is always its full price; a second pass logs, per page,
 * the entries of the product-options select box.
 *
 * The browser is not modelled: `load` gives, for a URL, the texts the
 * selectors extract from the loaded page, or `None` when loading the page
 * throws.
 */
module Puppeteer {
  import opened JsText
  import opened JsValues
  import Prices

  /**
   * The marker `parsePrice` removes: the three characters the UTF-8 bytes of
   * "€" turn into when read as Windows-1252 (U+00E2, U+201A, U+00AC).
   */
  const MisdecodedEuro := "\U{E2}\U{201A}\U{AC}"

  /** The euro sign itself, U+20AC. */
  const Euro: char := '\U{20AC}'

  /** `parsePrice(price)`: the first mis-decoded euro sign and the first "," go, then unary `+`. */
  function ParsePrice(price: string): Number {
    Prices.ParsePrice(MisdecodedEuro, price)
  }

  /**
   * A genuine euro sign is never stripped, since only its mis-decoded form is
   * matched: every "€" of the price reaches the number conversion, and so a
   * price written with one converts a text that still holds it.
   */
  lemma GenuineEuroReachesConversion(price: string)
    requires Euro in price
    ensures var stripped := Prices.StripPrice(MisdecodedEuro, price);
      && multiset(stripped)[Euro] == multiset(price)[Euro]
      && Euro in ParsePrice(price).literal
  {
    var stripped := Prices.StripPrice(MisdecodedEuro, price);
    Prices.StripPriceKeepsChar(MisdecodedEuro, price, Euro);
    assert Euro in stripped by {
      assert Euro in multiset(stripped);
    }
    assert !IsBlank(stripped) by {
      var k :| 0 <= k < |stripped| && stripped[k] == Euro;
      assert !IsJsWhitespace(stripped[k]);
    }
    Prices.ParsePriceSpec(MisdecodedEuro, price);
    TrimKeepsChar(stripped, Euro);
    assert Euro in multiset(Trim(stripped));
  }

  /** The mis-decoded sign in front of an amount is removed: "â‚¬59" strips to "59". */
  lemma StripMisdecodedEuroExample(s: string)
    requires s == "\U{E2}\U{201A}\U{AC}59"
    ensures Prices.StripPrice(MisdecodedEuro, s) == "59"
  {
    assert ReplaceFirst(s, MisdecodedEuro, "") == s[3..] by {
      assert OccursAt(s, MisdecodedEuro, 0) by {
        assert s[0..3] == MisdecodedEuro;
      }
      IndexOfIs(s, MisdecodedEuro, 0);
    }
    IndexOfFindsFirstChar(s[3..], ",");
  }

  /** A genuine euro sign in front of an amount stays: "€59" strips to itself. */
  lemma StripGenuineEuroExample(s: string)
    requires s == "\U{20AC}59"
    ensures Prices.StripPrice(MisdecodedEuro, s) == s
  {
    IndexOfFindsFirstChar(s, MisdecodedEuro);
    assert forall k :: !OccursAt(s, MisdecodedEuro, k) by {
      IndexOfSpec(s, MisdecodedEuro);
    }
    Prices.StripPriceUnchanged(MisdecodedEuro, s);
  }

  /** The texts of the loaded page the script reads: `title` and the final-price span. */
  datatype BrowserPage = BrowserPage(titleText: string, priceText: string)

  /**
   * `scrape(url)` once the page is loaded: the trimmed title, the parsed
   * trimmed price as both full and discounted price, and the currency "EUR".
   */
  function Scrape(url: string, page: BrowserPage): (r: ProductRecord)
    ensures r.discountedPrice == r.fullPrice
    ensures r.fullPrice == Num(ParsePrice(Trim(page.priceText)))
    ensures r.title == Str(Trim(page.titleText))
    ensures r.url == " " + url && r.apiUrl == None && r.currency == Str("EUR")
  {
    var title := Trim(page.titleText);
    var price := Trim(page.priceText);
    var fullPrice := ParsePrice(price);
    ProductRecord(
      url := " " + url,
      apiUrl := None,
      fullPrice := Num(fullPrice),
      discountedPrice := Num(fullPrice),
      currency := Str("EUR"),
      title := Str(title))
  }

  /**
   * The record's title is the page title without its surrounding whitespace:
   * the piece of it between a blank prefix and a blank suffix, neither
   * starting nor ending with whitespace, and empty exactly when the page title
   * is blank.
   */
  lemma ScrapeTitleIsTrimmed(url: string, page: BrowserPage)
    ensures Scrape(url, page).title.Str?
    ensures var t, s := Scrape(url, page).title.s, page.titleText;
      var i := |s| - |TrimStart(s)|;
      && 0 <= i && i + |t| <= |s| && s[i..i + |t|] == t
      && IsBlank(s[..i]) && IsBlank(s[i + |t|..])
      && (t == [] <==> IsBlank(s))
      && (t == [] || (!IsJsWhitespace(t[0]) && !IsJsWhitespace(t[|t| - 1])))
  {
    var s := page.titleText;
    TrimSlice(s);
    TrimEmptyIffBlank(s);
  }

  /**
   * `scrapeUrls(urls)`: one record per URL, in URL order, when every page
   * loads; when one throws, the loop stops and nothing is saved (`None`).
   */
  method ScrapeUrls(urls: seq<string>, load: string -> Option<BrowserPage>)
    returns (saved: Option<seq<ProductRecord>>)
    ensures saved.Some? <==> forall i :: 0 <= i < |urls| ==> load(urls[i]).Some?
    ensures saved.Some? ==>
      && |saved.value| == |urls|
      && forall i :: 0 <= i < |urls| ==> saved.value[i] == Scrape(urls[i], load(urls[i]).value)
  {
    var results: seq<ProductRecord> := [];
    for i := 0 to |urls|
      invariant |results| == i
      invariant forall j :: 0 <= j < i ==> load(urls[j]).Some?
      invariant forall j :: 0 <= j < i ==> results[j] == Scrape(urls[j], load(urls[j]).value)
    {
      var page := load(urls[i]);
      if page.None? {
        return None;
      }
      results := results + [Scrape(urls[i], page.value)];
    }
    return Some(results);
  }

  /** An `option` element of the select box: its text and its `value` attribute, if any. */
  datatype OptionElement = OptionElement(text: string, valueAttr: Option<string>)

  /**
   * A logged option. As in the script, `value` holds the option's TEXT and
   * `optionValue` its `value` attribute (absent when the element has none).
   */
  datatype LoggedOption = LoggedOption(value: string, optionValue: Option<string>)

  /** `log` has one entry per option, in order, each carrying that option's text and attribute. */
  predicate Describes(log: seq<LoggedOption>, options: seq<OptionElement>) {
    && |log| == |options|
    && forall j :: 0 <= j < |log| ==>
      log[j].value == options[j].text && log[j].optionValue == options[j].valueAttr
  }

  /** A log describes only one list of options: nothing is lost on the way. */
  lemma DescribesDeterminesOptions(log: seq<LoggedOption>, a: seq<OptionElement>, b: seq<OptionElement>)
    requires Describes(log, a) && Describes(log, b)
    ensures a == b
  {
    assert forall j :: 0 <= j < |a| ==> a[j] == OptionElement(log[j].value, log[j].optionValue) == b[j];
  }

  /** `logOptions(url)` once the page is loaded: `options.each` pushing one entry per matched element. */
  method LogOptions(options: seq<OptionElement>) returns (optionList: seq<LoggedOption>)
    ensures Describes(optionList, options)
  {
    optionList := [];
    for index := 0 to |options|
      invariant Describes(optionList, options[..index])
    {
      var element := options[index];
      optionList := optionList + [LoggedOption(value := element.text, optionValue := element.valueAttr)];
    }
    assert options[..|options|] == options;
  }

  /**
   * `logAllUrlOptions(urls)`: the option log of every URL, in URL order, when
   * every page loads; when one throws, nothing is saved (`None`).
   */
  method LogAllUrlOptions(urls: seq<string>, optionsOf: string -> Option<seq<OptionElement>>)
    returns (saved: Option<seq<seq<LoggedOption>>>)
    ensures saved.Some? <==> forall i :: 0 <= i < |urls| ==> optionsOf(urls[i]).Some?
    ensures saved.Some? ==>
      && |saved.value| == |urls|
      && forall i :: 0 <= i < |urls| ==> Describes(saved.value[i], optionsOf(urls[i]).value)
  {
    var results: seq<seq<LoggedOption>> := [];
    for i := 0 to |urls|
      invariant |results| == i
      invariant forall j :: 0 <= j < i ==> optionsOf(urls[j]).Some?
      invariant forall j :: 0 <= j < i ==> Describes(results[j], optionsOf(urls[j]).value)
    {
      var options := optionsOf(urls[i]);
      if options.None? {
        return None;
      }
      var optionList := LogOptions(options.value);
      results := results + [optionList];
    }
    return Some(results);
  }
}
