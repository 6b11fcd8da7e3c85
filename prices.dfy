/**
 * The `parsePrice` helper both HTML scrapers define: `+price.replace(symbol,
 * "").replace(",", "")`, where `symbol` is the currency marker the page puts
 * in front of the amount ("EUR" on one shop, a mis-decoded euro sign on the
 * other). Both replacements are string-pattern `replace` calls, so each
 * removes only the FIRST occurrence.
 */
module Prices {
  import opened JsText
  import opened JsValues

  /** The string step of `parsePrice`: the first `symbol` goes, then the first ",". */
  function StripPrice(symbol: string, price: string): string {
    ReplaceFirst(ReplaceFirst(price, symbol, ""), ",", "")
  }

  /** `parsePrice(price)`: unary `+` of the stripped text. */
  function ParsePrice(symbol: string, price: string): Number {
    StringToNumber(StripPrice(symbol, price))
  }

  /**
   * A price whose stripped text is blank parses to 0; any other parses to the
   * number its stripped, trimmed text denotes.
   */
  lemma ParsePriceSpec(symbol: string, price: string)
    ensures IsBlank(StripPrice(symbol, price)) ==> ParsePrice(symbol, price) == Zero
    ensures !IsBlank(StripPrice(symbol, price)) ==>
      ParsePrice(symbol, price).literal == Trim(StripPrice(symbol, price)) != []
  {
    StringToNumberSpec(StripPrice(symbol, price));
  }

  /**
   * The stripped text is `|symbol|` characters shorter when the symbol occurs,
   * and one more shorter when a "," is left after that; nothing else changes
   * the length.
   */
  lemma StripPriceLength(symbol: string, price: string)
    ensures var noSymbol := ReplaceFirst(price, symbol, "");
      |StripPrice(symbol, price)|
        == |price| - (if IndexOf(price, symbol) >= 0 then |symbol| else 0)
                   - (if IndexOf(noSymbol, ",") >= 0 then 1 else 0)
  {
    ReplaceFirstSpec(price, symbol, "");
    ReplaceFirstSpec(ReplaceFirst(price, symbol, ""), ",", "");
  }

  /** Without the symbol and without "," the text reaches the conversion unchanged. */
  lemma StripPriceUnchanged(symbol: string, price: string)
    requires forall k :: !OccursAt(price, symbol, k)
    requires ',' !in price
    ensures StripPrice(symbol, price) == price
  {
    assert IndexOf(price, symbol) < 0 by {
      IndexOfSpec(price, symbol);
    }
    IndexOfFindsChar(price, ',');
  }

  /**
   * Only the first symbol (if any) and then the first remaining "," (if any)
   * go: the stripped text is the input with exactly those spots cut out.
   */
  lemma StripPriceCutsFirstOccurrences(symbol: string, price: string)
    ensures var i := IndexOf(price, symbol);
      var rest := if i < 0 then price else price[..i] + price[i + |symbol|..];
      var j := IndexOf(rest, ",");
      StripPrice(symbol, price) == if j < 0 then rest else rest[..j] + rest[j + 1..]
  {
    var i := IndexOf(price, symbol);
    if i >= 0 {
      assert ReplaceFirst(price, symbol, "") == price[..i] + price[i + |symbol|..];
    }
  }

  /**
   * Stripping keeps every occurrence of a character that is neither "," nor
   * part of the symbol: only those two patterns are ever removed.
   */
  lemma StripPriceKeepsChar(symbol: string, price: string, c: char)
    requires c !in symbol && c != ','
    ensures multiset(StripPrice(symbol, price))[c] == multiset(price)[c]
  {
    ReplaceFirstKeepsChar(price, symbol, c);
    ReplaceFirstKeepsChar(ReplaceFirst(price, symbol, ""), ",", c);
  }

  /**
   * A missing price element (""), a bare symbol or a bare "," all parse to 0,
   * not to NaN.
   */
  lemma ParsePriceOfNothing(symbol: string)
    requires |symbol| > 0 && ',' !in symbol
    ensures ParsePrice(symbol, "") == Zero
    ensures ParsePrice(symbol, symbol) == Zero
    ensures ParsePrice(symbol, ",") == Zero
  {
    assert StripPrice(symbol, "") == "";
    assert StripPrice(symbol, symbol) == "" by {
      assert OccursAt(symbol, symbol, 0) by {
        assert symbol[0..|symbol|] == symbol;
      }
      IndexOfIs(symbol, symbol, 0);
    }
    assert StripPrice(symbol, ",") == "" by {
      IndexOfFindsFirstChar(",", symbol);
      IndexOfIs(",", ",", 0);
    }
  }
}
