# Product price scrapers, modelled in Dafny

This project models the three product scrapers of a small web-scraping
repository. Each one turns product pages of an online shop into
product records with these fields:

- `url`
- `fullPrice`
- `discountedPrice`
- `currency`
- `title`
- `apiUrl`, in the API scraper only.

- **`api.js`** takes each product page URL and cuts the product id out of it
  (`split("-").at(-1).split(".")[0]`). It builds the shop's product-API URL
  from that id and turns the API answer into a record. A page that fails
  leaves an `undefined` entry, and the loop goes on.
- **`request.js`** requests every page at once and waits with `Promise.all`.
  It trims the texts that three HTML selectors extract and parses the prices
  with `parsePrice`: `+price.replace("EUR", "").replace(",", "")`. The whole
  batch is dropped at the first status other than 200.
- **`puppeteer.js`** loads each page in a browser. It reads the page title and
  the final price, whose currency marker is a mis-decoded euro sign, and
  records the full price as the discounted price too. A second pass logs the
  option elements of each page's select box.

The Dafny modules follow that structure:

| file | module | what it holds |
|---|---|---|
| `jstext.dfy` | `JsText` | the JavaScript string built-ins the scripts use: `split`/`join`, `indexOf`, `lastIndexOf`, string-pattern `replace` (first occurrence only), `trim` with JavaScript's whitespace set |
| `jsvalues.dfy` | `JsValues` | JavaScript values as they reach a record, an abstract `Number`, unary `+`, `??`, and the product record |
| `prices.dfy` | `Prices` | the `parsePrice` helper shared by the two HTML scrapers, parameterised by the currency marker |
| `api.dfy` | `Api` | the API scraper |
| `request.dfy` | `Request` | the `Promise.all` scraper |
| `puppeteer.dfy` | `Puppeteer` | the browser scraper and the option logger |

The source's loops are modelled as methods with loops:

- the three `scrapeUrls` loops;
- `logOptions`'s `each`;
- `logAllUrlOptions`.

Each of them is proved against a function that describes one iteration.
Everything the scripts do per page is modelled as functions:

- product-id extraction;
- the API URL;
- `parsePrice`;
- record construction.

Lemmas about those functions state what the scripts promise.

## Model

| member | source | states |
|---|---|---|
| JsText.IndexOf | request.js:38 | the position a string-pattern `replace` acts on is -1 or a position where the whole pattern fits |
| JsText.IndexOfFromSpec | request.js:38 | the search from a start position finds the first occurrence at or after it, and -1 exactly when there is none |
| JsText.IndexOfSpec | request.js:38 | the found position holds the pattern and no earlier position does; -1 means the pattern occurs nowhere |
| JsText.IndexOfFindsChar | request.js:38 | a one-character pattern is found exactly when the character occurs in the text |
| JsText.IndexOfFindsFirstChar | puppeteer.js:47 | a pattern whose first character is absent from the text is never found |
| JsText.IndexOfIs | request.js:38 | an occurrence with none before it is the position found |
| JsText.LastIndexOf | api.js:44 | the last position holding the separator, or -1 when there is none |
| JsText.LastIndexOfFinds | api.js:44 | -1 exactly when the separator is absent; otherwise that position holds it |
| JsText.ReplaceFirstSpec | request.js:38 | `replace` with a string pattern leaves the text unchanged when the pattern is absent; otherwise it swaps only the first occurrence, and the text before and after it is kept |
| JsText.ReplaceFirstKeepsChar | puppeteer.js:47 | replacing a pattern with "" keeps every occurrence of a character the pattern does not contain |
| JsText.Split | api.js:44 | `split` always gives at least one piece, no piece holds the separator, and the first piece is a prefix of the text ending at a separator or at the end |
| JsText.SplitThenJoin | api.js:44 | joining the pieces of a split with the separator gives back the original text |
| JsText.SplitWithoutSeparator | api.js:44 | a text without the separator splits into itself alone |
| JsText.SplitAtSeparator | api.js:44 | a text holding the separator splits into more than one piece; at its first separator, into the text before it followed by the pieces of the text after it |
| JsText.SplitJoin | api.js:44 | splitting the join of separator-free pieces gives those pieces back |
| JsText.SplitPrefix | api.js:44 | a separator-free prefix, a separator and a rest split into that prefix followed by the pieces of the rest |
| JsText.SplitLast | api.js:44 | the last piece (`.at(-1)`) is exactly the text after the last separator, or the whole text when there is none |
| JsText.FirstPieceUnique | api.js:44 | any separator-free prefix that ends at a separator or at the end is the first piece |
| JsText.TrimStartSpec | request.js:56-58 | dropping leading whitespace leaves a suffix of the text whose removed part is blank, and which is empty or starts with a non-whitespace character |
| JsText.TrimEndSpec | request.js:56-58 | dropping trailing whitespace leaves a prefix of the text whose removed part is blank, and which is empty or ends with a non-whitespace character |
| JsText.TrimSlice | request.js:56-58 | `trim` gives the slice of the text between a blank prefix and a blank suffix, which neither starts nor ends with whitespace |
| JsText.TrimKeepsChar | puppeteer.js:80-81 | `trim` keeps every occurrence of a non-whitespace character |
| JsText.TrimEmptyIffBlank | request.js:57 | `trim` gives "" exactly when the text is all whitespace |
| JsText.TrimIdempotent | request.js:56-58 | trimming a trimmed text changes nothing |
| JsText.TrimIgnoresPadding | request.js:56-58 | whitespace added around a text does not change its trimmed form |
| JsValues.StringToNumberSpec | request.js:38 | unary `+` turns a blank text into 0; any other text becomes the number its trimmed text denotes |
| JsValues.StringToNumberIgnoresPadding | request.js:38 | whitespace around a text does not change the number `+` gives |
| JsValues.Plus | api.js:80-81 | unary `+` converts a string as above, gives 0 for `null` and `false`, and gives NaN for `undefined` |
| JsValues.Coalesce | api.js:81 | `a ?? b` is `b` exactly when `a` is `null` or `undefined`, and `a` otherwise |
| JsValues.NumberNeverFallsBack | api.js:81 | a number is never nullish, so `+x ?? y` is always `+x` |
| Prices.ParsePriceSpec | request.js:37-39 | `parsePrice` gives 0 when the stripped text is blank; otherwise it gives the number of the stripped, trimmed, non-empty text |
| Prices.StripPriceLength | request.js:38 | the stripped text is shorter by the marker's length when the marker occurs, and by one more when a "," remains |
| Prices.StripPriceUnchanged | request.js:38 | a price with no marker and no "," reaches the conversion unchanged |
| Prices.StripPriceCutsFirstOccurrences | request.js:38 | for every price, only the first marker (if any) and then the first remaining "," (if any) are cut out; every other character stays in place |
| Prices.StripPriceKeepsChar | puppeteer.js:47 | any character that is neither "," nor part of the marker keeps all its occurrences |
| Prices.ParsePriceOfNothing | request.js:37-39 | an empty price, a bare marker and a bare "," all parse to 0, not NaN |
| Api.ExtractProductId | api.js:43-46 | the product id holds no "-" and no "." |
| Api.ProductIdInTail | api.js:44 | the product id is the "."-free start of the text after the last "-", ending at a "." or at the end |
| Api.ProductIdAtTail | api.js:43-46 | the product id sits in the URL right after the last "-" (at the start when there is none), is followed by "." or the end, and no "-" follows it |
| Api.ProductIdUnique | api.js:43-46 | conversely, a piece placed as `ProductIdAtTail` describes is the product id, so that description characterises the extraction completely |
| Api.ProductIdOfPageUrl | api.js:43-46 | a URL ending in "-", a "-"-free and "."-free id and ".html" gives that id |
| Api.UrlsProductIds | api.js:29-32 | the two hard-coded pages give the product ids "81152SC17A0029" and "811522R39V0097" |
| Api.ProductUrl | api.js:66 | the API URL is the base URL, then "?pid=", then the product id |
| Api.ProductUrlInjective | api.js:66 | different product ids give different API URLs |
| Api.Scrape | api.js:62-90 | a record exists exactly when the request succeeds, the status is 200, and `price.sales` is readable; it then carries both URLs, `+value`, `+discountedPrice`, the currency and the product name; otherwise `undefined` |
| Api.MissingDiscountIsNaN | api.js:75-81 | an answer without `discountedPrice` gets NaN as its discounted price, never the full price |
| Api.ScrapeUrls | api.js:92-96 | one entry per URL, in order; an entry is missing exactly when that page's answer is unusable, and the loop goes on |
| Request.StripPriceKeepsLaterCommas | request.js:38 | "1,000,000" strips to "1000,000": only the first "," goes |
| Request.ParsePriceOfEuroAmount | request.js:37-39 | "EUR 120" parses to 120 |
| Request.StripPriceOfEuroAmount | request.js:38 | stripping "EUR 120" removes the "EUR" and nothing else |
| Request.RecordOf | request.js:54-68 | every record has the response URL with a leading space, no API URL, currency "EUR" and the trimmed heading as title; its full price is `parsePrice` of the trimmed previous-price text, and its discounted price that of the trimmed discounted text |
| Request.DiscountNeverFallsBack | request.js:57-65 | the discounted price is the parsed discounted text, and the full price plays no part in it |
| Request.MissingDiscountIsZero | request.js:57-65 | a page with no discounted-price text gets 0 as its discounted price, not its full price |
| Request.MissingDiscountExample | request.js:56-65 | a page priced "EUR 120" without a discount gets 120 in full and 0 discounted |
| Request.AwaitAll | request.js:42-47 | `Promise.all` gives the responses in URL order exactly when every request succeeds |
| Request.RecordsOf | request.js:48-71 | the loop gives one record per response, in order, exactly when every status is 200 |
| Request.ScrapeUrls | request.js:41-77 | records are saved exactly when every request succeeds with status 200; they are then one per URL, in URL order |
| Puppeteer.GenuineEuroReachesConversion | puppeteer.js:46-48 | a genuine "€" is never stripped: every one reaches the number conversion |
| Puppeteer.StripMisdecodedEuroExample | puppeteer.js:47 | the mis-decoded sign before "59" is removed |
| Puppeteer.StripGenuineEuroExample | puppeteer.js:47 | "€59" strips to itself |
| Puppeteer.Scrape | puppeteer.js:75-96 | the full price is `parsePrice` of the trimmed price text and the discounted price is always that same full price; the title is the trimmed page title, the URL carries a leading space, there is no API URL, and the currency is "EUR" |
| Puppeteer.ScrapeTitleIsTrimmed | puppeteer.js:80 | the title is the page title between a blank prefix and a blank suffix, with no whitespace at its ends, and it is empty exactly when the page title is blank |
| Puppeteer.ScrapeUrls | puppeteer.js:98-105 | records are saved exactly when every page loads; they are then one per URL, in URL order |
| Puppeteer.DescribesDeterminesOptions | puppeteer.js:117-121 | an option log describes only one list of options, so nothing is lost |
| Puppeteer.LogOptions | puppeteer.js:108-125 | the log has one entry per option, in order, holding the option's text as `value` and its value attribute as `optionValue` |
| Puppeteer.LogAllUrlOptions | puppeteer.js:127-137 | the logs are saved exactly when every page loads; they are then one log per URL, in URL order, each describing that page's options |

## Left out

- HTTP requests (`gotScraping`) and `JSON.parse`: both are the `fetch` parameter. Each call is assumed to give the same answer for the same URL.
- Request concurrency under `Promise.all`: modelled as an order-preserving wait that fails if any request fails.
- The cheerio selectors: their extracted texts are given directly as strings (`ProductPage`, `BrowserPage`, `OptionElement`).
- The browser (`createBrowserPage`, puppeteer.js:50-73) is modelled only through `load`/`optionsOf`, which give `None` when launching, loading or reading the page throws.
- The status listener (puppeteer.js:59-66) is left out. Its `throw` happens inside an `async` event handler whose promise nothing awaits, so it never reaches `page.goto` or `scrape`. On Node 15 and later the unhandled rejection ends the whole process; on older Node the scrape goes on with the error page.
- The two loops of puppeteer.js run at the same time in one process: `scrapeUrls(urls)` and `logAllUrlOptions(urls)` are both started without `await` (puppeteer.js:106, 138). A page that fails in one loop is an unhandled rejection that ends the process, so the other loop may save nothing either. `Puppeteer.ScrapeUrls` and `Puppeteer.LogAllUrlOptions` describe each loop on its own.
- Floating-point conversion: a `Number` is named by the literal text it is converted from. Blank text is 0 and `undefined` is NaN. Nothing else about the double values is modelled.
- Objects reaching unary `+` are modelled only by the text of their `toString`.
- `saveToFile` and `JSON.stringify` (util.js): the saved value is the method's result. util.js is not part of this model.
- `console.log` output.
- The top-level calls of each script on its hard-coded URL list. Only api.js's list is kept (`Api.Urls`), for its product-id examples; the URL lists of request.js and puppeteer.js are not part of this model.
- playwright.js is not part of this model.
- The option logger's header comment mentions selecting the second option. The code never does this, so it is not modelled.
