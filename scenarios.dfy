/** Worked instances of the tracker's behaviour on concrete inputs. */
module Scenarios {
  import opened Results
  import opened PyStr
  import opened Decimal
  import opened Tracker
  import opened Report

  lemma DigitsStep(s: string)
    requires AllDigits(s) && s != []
    ensures DigitsValue(s) == DigitsValue(s[..|s| - 1]) * 10 + DigitValue(s[|s| - 1])
  {
  }

  lemma DigitsOfTwo(s: string)
    requires AllDigits(s) && |s| == 2
    ensures DigitsValue(s) == 10 * DigitValue(s[0]) + DigitValue(s[1])
  {
    DigitsStep(s);
    DigitsStep(s[..1]);
    assert s[..1][..0] == [];
  }

  lemma DigitsOfThree(s: string)
    requires AllDigits(s) && |s| == 3
    ensures DigitsValue(s) == 100 * DigitValue(s[0]) + 10 * DigitValue(s[1]) + DigitValue(s[2])
  {
    DigitsStep(s);
    DigitsOfTwo(s[..2]);
  }

  lemma DigitsOfFour(s: string)
    requires AllDigits(s) && |s| == 4
    ensures DigitsValue(s) == 1000 * DigitValue(s[0]) + 100 * DigitValue(s[1])
                              + 10 * DigitValue(s[2]) + DigitValue(s[3])
  {
    DigitsStep(s);
    DigitsOfThree(s[..3]);
  }

  lemma DollarLayout(price: string)
    requires price == "$1,234\n56"
    ensures price == "$" + (price[1..2] + "," + price[3..6] + "\n" + price[7..9])
    ensures AllDigits(price[1..2]) && AllDigits(price[3..6]) && AllDigits(price[7..9])
  {
    assert price == "$" + (price[1..2] + "," + price[3..6] + "\n" + price[7..9]);
  }

  lemma DollarPieces(price: string)
    requires price == "$1,234\n56"
    ensures var a, b, frac := price[1..2], price[3..6], price[7..9];
            && price == "$" + (a + "," + b + "\n" + frac)
            && AllDigits(a) && AllDigits(b) && AllDigits(frac)
            && !Contains(a + "," + b + "\n" + frac, "$")
  {
    DollarLayout(price);
    assert "$" == ['$'];
    FindCharAbsent(price[1..], '$');
  }

  lemma DollarValue(price: string)
    requires price == "$1,234\n56"
    ensures AllDigits(price[1..2] + price[3..6]) && AllDigits(price[7..9])
    ensures PointValue(price[1..2] + price[3..6], price[7..9]) == 1234.56
  {
    var w, frac := price[1..2] + price[3..6], price[7..9];
    DigitsOfFour(w);
    DigitsOfTwo(frac);
    assert Pow10(2) == 100;
  }

  /** A dollar price with a thousands comma and the cents on their own line. */
  lemma ConvertDollars(price: string)
    requires price == "$1,234\n56"
    ensures ConvertPrice(price, "$") == Ok(1234.56)
  {
    DollarPieces(price);
    DollarValue(price);
    ConvertGroupedStacked("$", price[1..2], price[3..6], price[7..9]);
  }

  lemma RupeeLayout(price: string)
    requires price == "₹1,23,456"
    ensures price == "₹" + (price[1..2] + "," + price[3..5] + "," + price[6..9])
    ensures AllDigits(price[1..2]) && AllDigits(price[3..5]) && AllDigits(price[6..9])
  {
    assert price == "₹" + (price[1..2] + "," + price[3..5] + "," + price[6..9]);
  }

  lemma RupeePieces(price: string)
    requires price == "₹1,23,456"
    ensures var a, b, c := price[1..2], price[3..5], price[6..9];
            && price == "₹" + (a + "," + b + "," + c)
            && AllDigits(a) && AllDigits(b) && AllDigits(c)
            && !Contains(a + "," + b + "," + c, "₹")
            && DigitsValue(a + b) == 123
  {
    RupeeLayout(price);
    assert "₹" == ['₹'];
    FindCharAbsent(price[1..], '₹');
    DigitsOfThree(price[1..2] + price[3..5]);
  }

  /** Indian digit grouping: only the first comma is removed, so the rupee
      price "1,23,456" reads as 123. */
  lemma ConvertIndianGrouping(price: string)
    requires price == "₹1,23,456"
    ensures ConvertPrice(price, "₹") == Ok(123.0)
  {
    RupeePieces(price);
    ConvertSecondCommaLost("₹", price[1..2], price[3..5], price[6..9]);
  }

  lemma MillionsLayout(price: string)
    requires price == "$1,234,567.89"
    ensures price == "$" + (price[1..2] + "," + price[3..6] + "," + price[7..13])
    ensures AllDigits(price[1..2]) && AllDigits(price[3..6])
  {
    assert price == "$" + (price[1..2] + "," + price[3..6] + "," + price[7..13]);
  }

  lemma MillionsPieces(price: string)
    requires price == "$1,234,567.89"
    ensures var a, b, c := price[1..2], price[3..6], price[7..13];
            && price == "$" + (a + "," + b + "," + c)
            && AllDigits(a) && AllDigits(b)
            && !Contains(a + "," + b + "," + c, "$")
            && DigitsValue(a + b) == 1234
  {
    MillionsLayout(price);
    assert "$" == ['$'];
    FindCharAbsent(price[1..], '$');
    DigitsOfFour(price[1..2] + price[3..6]);
  }

  /** A price with two grouping commas and a decimal point: everything after
      the second comma is lost, so "$1,234,567.89" reads as 1234. */
  lemma ConvertMillions(price: string)
    requires price == "$1,234,567.89"
    ensures ConvertPrice(price, "$") == Ok(1234.0)
  {
    MillionsPieces(price);
    ConvertSecondCommaLost("$", price[1..2], price[3..6], price[7..13]);
  }

  lemma SpacedRupeeLayout(price: string)
    requires price == "₹ 1,299.00"
    ensures price == "₹" + (price[1..2] + price[2..3] + "," + price[4..7] + "." + price[8..10])
    ensures AllSpace(price[1..2]) && '\n' !in price[1..2]
    ensures AllDigits(price[2..3]) && AllDigits(price[4..7]) && AllDigits(price[8..10])
  {
    assert price == "₹" + (price[1..2] + price[2..3] + "," + price[4..7] + "." + price[8..10]);
  }

  lemma SpacedRupeeValue(price: string)
    requires price == "₹ 1,299.00"
    ensures AllDigits(price[2..3] + price[4..7]) && AllDigits(price[8..10])
    ensures PointValue(price[2..3] + price[4..7], price[8..10]) == 1299.0
  {
    DigitsOfFour(price[2..3] + price[4..7]);
    DigitsOfTwo(price[8..10]);
  }

  /** The usual rupee layout, with a space after the symbol and a decimal
      point. */
  lemma ConvertSpacedRupees(price: string)
    requires price == "₹ 1,299.00"
    ensures ConvertPrice(price, "₹") == Ok(1299.0)
  {
    SpacedRupeeLayout(price);
    SpacedRupeeValue(price);
    assert "₹" == ['₹'];
    FindCharAbsent(price[1..], '₹');
    ConvertSpacedGrouped("₹", price[1..2], price[2..3], price[4..7], price[8..10]);
  }

  /** A product page with a title, a seller and a primary price of $10.00. */
  function WidgetPage(): Page
  {
    Page(map["productTitle" := "Widget", "bylineInfo" := "Acme", "priceblock_ourprice" := "$10\n00"], map[])
  }

  /** A cheaper product page without a seller. */
  function NoSellerPage(): Page
  {
    Page(map["productTitle" := "Gadget", "priceblock_ourprice" := "$5\n00"], map[])
  }

  lemma WidgetPricePieces(price: string)
    requires price == "$10\n00"
    ensures var whole, frac := price[1..3], price[4..6];
            && price == "$" + (whole + "\n" + frac)
            && AllDigits(whole) && AllDigits(frac)
            && !Contains(whole + "\n" + frac, "$")
            && PointValue(whole, frac) == 10.0
  {
    var whole, frac := price[1..3], price[4..6];
    assert price == "$" + (whole + "\n" + frac);
    assert "$" == ['$'];
    FindCharAbsent(price[1..], '$');
    DigitsOfTwo(whole);
    DigitsOfTwo(frac);
  }

  lemma NoSellerPricePieces(price: string)
    requires price == "$5\n00"
    ensures var whole, frac := price[1..2], price[3..5];
            && price == "$" + (whole + "\n" + frac)
            && AllDigits(whole) && AllDigits(frac)
            && !Contains(whole + "\n" + frac, "$")
  {
    var whole, frac := price[1..2], price[3..5];
    assert price == "$" + (whole + "\n" + frac);
    assert "$" == ['$'];
    FindCharAbsent(price[1..], '$');
  }

  lemma WidgetPriced(page: Page, cur: string)
    requires page == WidgetPage() && cur == "$"
    ensures GetProductPrice(page, cur) == Ok(Some(10.0))
  {
    var price := page.ids["priceblock_ourprice"];
    WidgetPricePieces(price);
    ConvertStacked("$", price[1..3], price[4..6]);
  }

  lemma NoSellerPriced(page: Page, cur: string)
    requires page == NoSellerPage() && cur == "$"
    ensures GetProductPrice(page, cur).Ok?
  {
    var price := page.ids["priceblock_ourprice"];
    NoSellerPricePieces(price);
    ConvertStacked("$", price[1..2], price[3..5]);
  }

  /** The two search-result links of the scenario below. */
  lemma ScenarioAsins(baseUrl: string, links: seq<string>)
    requires !Contains(baseUrl + "/dp", "/dp/") && !Contains(baseUrl, "/ref")
    requires links == [ShortenUrl(baseUrl, "A1") + "/ref" + "=sr_1_1",
                       ShortenUrl(baseUrl, "B2") + "/ref" + "=sr_1_2"]
    ensures GetAsins(links) == ["A1", "B2"]
  {
    AsinRoundTrip(baseUrl, "A1", "=sr_1_1");
    AsinRoundTrip(baseUrl, "B2", "=sr_1_2");
  }

  lemma WidgetRecord(api: AmazonApi, site: string -> Page)
    requires api.currency == "$"
    requires site(ShortenUrl(api.baseUrl, "A1") + LanguageSuffix) == WidgetPage()
    ensures GetSingleProductInfo(api, site, "A1")
            == Ok(Some(Product("A1", ShortenUrl(api.baseUrl, "A1"), "Widget", "Acme", 10.0)))
  {
    WidgetPriced(ProductPage(api, site, "A1"), api.currency);
  }

  lemma NoSellerDropped(api: AmazonApi, site: string -> Page)
    requires api.currency == "$"
    requires site(ShortenUrl(api.baseUrl, "B2") + LanguageSuffix) == NoSellerPage()
    ensures GetSingleProductInfo(api, site, "B2") == Ok(None)
  {
    NoSellerPriced(ProductPage(api, site, "B2"), api.currency);
  }

  /** A single record is the best item. */
  lemma BestOfOne(p: Product)
    ensures GetBestItem(Some([p])) == Some(p)
  {
    assert FirstMinIndex([p]) == 0;
  }

  lemma TwoOutcomes(api: AmazonApi, site: string -> Page, asins: seq<string>)
    requires |asins| == 2
    ensures Outcomes(Visit(api, site), asins)
            == [GetSingleProductInfo(api, site, asins[0]), GetSingleProductInfo(api, site, asins[1])]
  {
    OutcomesAt(Visit(api, site), asins, 0);
    OutcomesAt(Visit(api, site), asins, 1);
  }

  lemma KeptFirstOnly(p: Product)
    ensures Kept([Ok(Some(p)), Ok(None)]) == [p]
  {
    var r1: Outcome, r2: Outcome := Ok(Some(p)), Ok(None);
    KeptSnoc([], r1);
    KeptSnoc([r1], r2);
    assert [] + [r1] == [r1] && [r1] + [r2] == [r1, r2];
  }

  /** Two search results: the complete one is the only record kept and the
      best item, though the one without a seller is cheaper. */
  lemma TwoResults(api: AmazonApi, site: string -> Page, links: seq<string>)
    requires api.currency == "$"
    requires !Contains(api.baseUrl + "/dp", "/dp/") && !Contains(api.baseUrl, "/ref")
    requires links == [ShortenUrl(api.baseUrl, "A1") + "/ref" + "=sr_1_1",
                       ShortenUrl(api.baseUrl, "B2") + "/ref" + "=sr_1_2"]
    requires site(ShortenUrl(api.baseUrl, "A1") + LanguageSuffix) == WidgetPage()
    requires site(ShortenUrl(api.baseUrl, "B2") + LanguageSuffix) == NoSellerPage()
    ensures var widget := Product("A1", ShortenUrl(api.baseUrl, "A1"), "Widget", "Acme", 10.0);
            && Kept(Outcomes(Visit(api, site), GetAsins(links))) == [widget]
            && GetBestItem(Some([widget])) == Some(widget)
  {
    var widget := Product("A1", ShortenUrl(api.baseUrl, "A1"), "Widget", "Acme", 10.0);
    ScenarioAsins(api.baseUrl, links);
    TwoOutcomes(api, site, GetAsins(links));
    WidgetRecord(api, site);
    NoSellerDropped(api, site);
    KeptFirstOnly(widget);
    BestOfOne(widget);
  }
}
