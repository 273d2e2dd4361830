# Amazon price tracker — a verified model of its extraction core

The tracker searches Amazon for a term, reads a product identifier (ASIN) from
each search-result link, visits every product page, reads its title, seller
and price, and keeps a record for each product whose three fields are all
present and truthy (a non-empty title and seller, a non-zero price). It then
writes a report naming the cheapest record. This project
models that pipeline in Dafny, from `tracker.py`, and proves what the code
does on every input:

- `results.dfy` (module `Results`): Python's `None` is `Option`. The
  exceptions the core raises or catches are `Exc`. A call that may raise
  returns `Try`.
- `py_str.dfy` (module `PyStr`) covers the string operations the core uses:
  - `str.find`, with -1 when the text is absent;
  - `str.split` on a non-empty separator, and the `IndexError` of `[1]` on a
    one-part result;
  - slicing, with Python's clamping of negative and out-of-range bounds;
  - stripping the whitespace that `float()` ignores around a number.
- `decimal.dfy` (module `Decimal`): `float()` on signed decimal literals with
  surrounding whitespace, read as an exact `real`. Also the decimal rendering
  of natural numbers.
- `tracker.dfy` (module `Tracker`): the `AmazonAPI` class, covering:
  - the price-filter fragment and `convert_price`;
  - `shorten_url`, `get_asin` and `get_asins`;
  - the title and seller lookups and the three-tier `get_product_price`;
  - `get_single_product_info`;
  - the `get_products_info` loop, as a method proved against a recursive
    specification;
  - `run`.
- `report.dfy` (module `Report`): `GenerateReport`. This is the stable sort
  by price, `get_best_item`, the `get_now` time stamp and the report record.
- `scenarios.dfy` (module `Scenarios`): concrete price strings and a
  two-product run, worked through the model.

The browser is a function `site` from a URL to a `Page`. A `Page` maps
element ids to their text, and class names to their text. Every page visit
is an application of `site` to the product URL plus the `/?language=en_IN`
suffix. `AmazonAPI` is a value (`AmazonApi`), because its constructor sets
every field and no method updates them.

## Behaviour of the code as written

The model follows `tracker.py` line by line, including the consequences below.

- Parse errors propagate out of `get_product_price`. Around tiers 1 and 2
  (tracker.py:113-125) only `NoSuchElementException` is caught. An
  `IndexError` or `ValueError` from `convert_price` therefore escapes. It
  then escapes `get_single_product_info` (tracker.py:97) and ends the whole
  `get_products_info` call (tracker.py:81-82). Modelled by
  `GetProductPrice`, `SingleProductRecord` and `GetProductsInfo`.
- Tier 3 (tracker.py:126-135) never yields a price. It calls `find` on the
  element object itself rather than on its text. A WebElement has no `find`,
  so this raises `AttributeError`, which the catch-all handler turns into
  `None` (`ClassPrice`, `ThirdTierGivesNone`).
- An availability text without "Available" gives `None` at once
  (tracker.py:121, 136). Tier 3 is not tried (`UnavailableGivesNone`).
- `convert_price` removes only the first comma (tracker.py:145). With a
  second comma, everything after it is lost (`ConvertSecondCommaLost`,
  `Scenarios.ConvertIndianGrouping`, `Scenarios.ConvertMillions`). Text
  after a second newline is dropped too (tracker.py:141,
  `JoinStackedDropsRest`).
- A record needs a truthy price (tracker.py:99). A price of `0.0` drops the
  product just like a missing one (`SingleProductRecord`).
- A `/ref` that comes before `/dp/` in a link gives an empty identifier
  (tracker.py:175, `GetAsinRefFirst`).

## Model

| member | source | states |
|---|---|---|
| Tracker.NewAmazonApi | tracker.py:54-62 | the constructor keeps the base URL, search term and currency; the price filter is `&rh=p_36%3A`, then each bound in hundredths, separated by `-` |
| Tracker.PriceFilter | tracker.py:62 | the f-string fragment: each bound's numeral followed by `00`; its meaning is stated by `PriceFilterInHundredths` |
| Tracker.Hundredths | tracker.py:62 | the digits sent for a bound are a digit string whose value is 100 times the bound |
| Tracker.BoundInHundredths | tracker.py:62 | a bound's numeral followed by `00` is the bound in hundredths, with 0 giving `000` |
| Tracker.PriceFilterInHundredths | tracker.py:62 | for every pair of bounds, zero included, appending `00` sends the range in hundredths of the currency unit |
| Decimal.AppendZerosTimes100 | tracker.py:62 | the numeral of a positive n followed by `00` is the numeral of 100·n |
| Decimal.NatToDecimal | tracker.py:62 | the f-string rendering of a natural number is a digit string, without leading zeros, whose value is that number |
| Decimal.ParseRendered | tracker.py:62 | `float()` of a rendered natural number gives that number back |
| Tracker.ConvertPrice | tracker.py:138-148 | an empty symbol raises `ValueError`; a text without the symbol raises `IndexError`; only those two exceptions arise; a value needs the symbol in the text |
| Tracker.ConvertNeedsSymbol | tracker.py:139 | without the currency symbol, `split(cur)[1]` fails and no price is read |
| Tracker.ConvertDiscardsLead | tracker.py:139-148 | the text before the first symbol is discarded; the result is `float()` of the newline- and comma-normalised text after it, and a `float()` failure is `ValueError` |
| Tracker.ConvertAfterSymbol | tracker.py:139-148 | a price that starts with the symbol is read from the rest of the text |
| Tracker.ConvertBySecondPart | tracker.py:139 | two texts with the same part between the first and second symbol convert alike |
| Tracker.SplitAfterLead | tracker.py:139 | `split(cur)` of `lead + cur + body` is `[lead, body]` when no symbol occurs earlier or in the body |
| Tracker.JoinStacked | tracker.py:140-143 | the newline step: the first two newline-separated segments joined by a point, or the text unchanged; its cases are stated by the three lemmas below |
| Tracker.JoinStackedOnce | tracker.py:141 | with one newline, the two segments are joined by a decimal point |
| Tracker.JoinStackedDropsRest | tracker.py:141 | with two newlines, the text after the second is dropped |
| Tracker.JoinStackedNone | tracker.py:140-143 | without a newline, the `IndexError` is swallowed and the text passes through unchanged |
| Tracker.DropGrouping | tracker.py:144-147 | the comma step: the first two comma-separated segments concatenated, or the text unchanged; its cases are stated by the three lemmas below |
| Tracker.DropGroupingOnce | tracker.py:145 | with one comma, the two sides are concatenated |
| Tracker.DropGroupingNone | tracker.py:144-147 | without a comma, the `IndexError` is swallowed and the text passes through unchanged |
| Tracker.DropGroupingDropsRest | tracker.py:145 | with two commas, the text after the second is dropped, whatever it is |
| Tracker.JoinStackedPrefix | tracker.py:141 | the newline step leaves a newline-free prefix in place |
| Tracker.GroupedStackedNormalised | tracker.py:141-145 | `a,b` newline `frac` normalises to the literal `ab.frac` |
| Tracker.TwoCommasNormalised | tracker.py:141-145 | `a,b,` followed by any text normalises to `ab`, for digit strings `a` and `b` |
| Tracker.SpacedGroupedNormalised | tracker.py:141-145 | spaces followed by `a,b.frac` normalise to the spaces followed by `ab.frac` |
| Tracker.SpacedLiteralValue | tracker.py:148 | `float()` ignores leading spaces before `whole.frac` |
| Tracker.ConvertStacked | tracker.py:138-148 | `cur` + whole + newline + frac converts to whole + frac/10^len(frac) |
| Tracker.ConvertGroupedStacked | tracker.py:138-148 | `cur` + `a,b` + newline + frac converts to the value of `ab.frac` |
| Tracker.ConvertSpacedGrouped | tracker.py:138-148 | `cur` + spaces + `a,b.frac` converts to the value of `ab.frac` |
| Tracker.ConvertSecondCommaLost | tracker.py:138-148 | `cur` + `a,b,` + any symbol-free text converts to the value of `ab`: everything after the second comma is lost |
| Decimal.ParseNumeral | tracker.py:148 | an unsigned numeral reads as a non-negative value |
| Decimal.ParseNumeralDomain | tracker.py:148 | an unsigned numeral reads exactly when it is digits with at most one point and at least one digit |
| Decimal.ParseFloat | tracker.py:148 | `float()`: a negative value needs a leading `-` after stripping; the lemmas below state its domain and values |
| Decimal.SameStripSameFloat | tracker.py:148 | `float()` depends only on the text with surrounding whitespace removed |
| Decimal.ParseFloatUnsigned | tracker.py:148 | a trimmed text without a sign reads as its numeral |
| Decimal.ParseFloatSigned | tracker.py:148 | a leading `-` negates the numeral, a leading `+` keeps it, and a bad numeral fails either way |
| Decimal.ParseFloatPadded | tracker.py:148 | whitespace on either side does not change what `float()` reads |
| Decimal.ParseFloatInteger | tracker.py:148 | `float()` of a digit string is its value |
| Decimal.ParseFloatPoint | tracker.py:148 | `float()` of `whole.frac` is whole + frac/10^len(frac) |
| PyStr.Find | tracker.py:123 | `str.find` is -1 or an index where the text occurs |
| PyStr.FindFirst | tracker.py:123 | no occurrence lies before the index `str.find` returns, and none at all when it returns -1 |
| PyStr.FindIs | tracker.py:175 | the first occurrence is the index `str.find` returns |
| PyStr.Contains | tracker.py:121 | the `in` test holds for the empty needle and never for a needle longer than the text |
| PyStr.ContainsIff | tracker.py:121 | the `in` test holds exactly when some index holds an occurrence |
| PyStr.Split | tracker.py:139 | `split` yields at least one part, and two or more exactly when the separator occurs |
| PyStr.SplitParts | tracker.py:139-145 | joining the parts with the separator gives the text back, and no part holds the separator |
| PyStr.ClampIndex | tracker.py:175 | a slice bound lands in range: one in range is kept, a negative one counts from the end, one past the end gives the length, and one before the start gives 0 |
| PyStr.Slice | tracker.py:175 | a Python slice is never longer than the text, and bounds that cross after clamping give the empty string |
| PyStr.SliceFrom | tracker.py:123 | `s[start:]` is never longer than the text, is the plain suffix for a start in range, keeps only the last character for a start of -1 (a missing symbol), and is empty for a start past the end |
| PyStr.SliceWithin | tracker.py:175 | with bounds in range, a Python slice is the plain piece between them |
| PyStr.IsSpace | tracker.py:148 | the whitespace `float()` ignores holds no digit, point, comma or sign |
| PyStr.Strip | tracker.py:148 | stripping never lengthens the text |
| PyStr.StripLeadingSuffix | tracker.py:148 | removing leading whitespace leaves a suffix of the text that does not start with whitespace |
| PyStr.StripTrailingPrefix | tracker.py:148 | removing trailing whitespace leaves a prefix of the text that does not end with whitespace |
| PyStr.StripResult | tracker.py:148 | what stripping leaves has no whitespace at either end and is the piece of the text after its leading whitespace |
| PyStr.StripPadded | tracker.py:148 | stripping whitespace from both ends recovers a trimmed text |
| Tracker.ShortenUrl | tracker.py:168-169 | the canonical URL is the base URL, then `/dp/`, then the identifier, each readable at its position |
| Tracker.GetAsin | tracker.py:174-175 | the identifier is a slice of the link, so it is never longer than the link |
| Tracker.GetAsinBetween | tracker.py:175 | with `/dp/` present and the first `/ref` after it, the identifier is the text between them and holds no `/ref` |
| Tracker.GetAsinWithoutDp | tracker.py:175 | without `/dp/`, the slice starts at index 3 |
| Tracker.GetAsinRefFirst | tracker.py:175 | a `/ref` before the end of `/dp/` crosses the slice bounds and gives the empty identifier |
| Tracker.GetAsinWithoutRef | tracker.py:175 | without `/ref`, the slice stops before the last character |
| Tracker.FindDpInUrl | tracker.py:169-175 | in a canonical product URL, `/dp/` is first found right after the base URL |
| Tracker.NoRefNearAsin | tracker.py:175 | no `/ref` starts between three characters before `/dp/` and the end of an identifier of upper-case letters and digits |
| Tracker.FindRefAfterAsin | tracker.py:175 | after a canonical URL, `/ref` is first found right after the identifier |
| Tracker.AsinRoundTrip | tracker.py:168-175 | `get_asin` of `shorten_url(asin)` + `/ref…` is `asin`, for an ASIN of upper-case letters and digits and a base URL that holds no `/dp/` or `/ref` and does not end in `/dp` |
| Tracker.GetAsins | tracker.py:171-172 | one identifier per link, each `get_asin` of its link, in order |
| Tracker.GetAsinsAppend | tracker.py:172 | the identifiers of concatenated link lists are concatenated |
| Tracker.FindById | tracker.py:115 | an element lookup succeeds exactly when the id is on the page, with its text; otherwise it raises `NoSuchElementException` |
| Tracker.GetProductTitle | tracker.py:160-166 | the title is present exactly when `productTitle` is on the page, with its text |
| Tracker.GetProductSeller | tracker.py:151-157 | the seller is present exactly when `bylineInfo` is on the page, with its text |
| Tracker.GetProductPrice | tracker.py:111-136 | the price lookup raises only `IndexError` or `ValueError`, both escaping from `convert_price` |
| Tracker.PrimaryPrice | tracker.py:113-117 | tier 1 raises `NoSuchElementException` exactly when the primary element is missing; otherwise only `convert_price`'s exceptions |
| Tracker.DealPrice | tracker.py:119-124 | tier 2 raises `NoSuchElementException` exactly when the availability element is missing, or it says "Available" and the deal-price element is missing; it gives `None` exactly when the availability text lacks "Available" |
| Tracker.ClassPrice | tracker.py:126-135 | tier 3 never yields a price |
| Tracker.PrimaryDecides | tracker.py:113-117 | when the primary element exists, its converted text is the result, failures included, and no other element matters |
| Tracker.DealPriceUsed | tracker.py:118-124 | without the primary element, an availability text with "Available" and a deal-price element give the converted deal price |
| Tracker.UnavailableGivesNone | tracker.py:119-136 | without the primary element, availability text without "Available" gives `None`, and tier 3 is not tried |
| Tracker.ThirdTierGivesNone | tracker.py:125-135 | every path into tier 3 ends in `None` |
| Tracker.PriceOrigin | tracker.py:111-136 | a price found came from tier 1, or from tier 2 under its availability condition, converted |
| Tracker.SliceToSymbolNeutral | tracker.py:123-130 | slicing from the first currency symbol before `convert_price` never changes its outcome |
| Tracker.SliceKeepsSecondPart | tracker.py:123 | the text sliced at its first symbol still holds it and splits with the same second part |
| Tracker.TruthyText | tracker.py:99 | a looked-up title or seller passes the `if` exactly when it is neither `None` nor the empty string |
| Tracker.TruthyPrice | tracker.py:99 | a looked-up price passes the `if` exactly when it is neither `None` nor zero |
| Tracker.ProductPage | tracker.py:90-91 | the page shown for an identifier is the site at its canonical URL with the `/?language=en_IN` suffix; `GetSingleProductInfo` reads every field from it |
| Tracker.GetSingleProductInfo | tracker.py:88-108 | a record carries the input identifier and is complete: a non-empty title and seller, a non-zero price, and the URL without the language suffix |
| Tracker.SingleProductRecord | tracker.py:88-108 | the visit raises exactly when the price lookup raises; it gives a record exactly when title, seller and price are all truthy, and the record holds those values |
| Tracker.OutcomesAt | tracker.py:81-82 | each identifier's outcome is its own visit, one outcome per identifier |
| Tracker.OutcomesSnoc | tracker.py:81-82 | visiting one more identifier appends its outcome |
| Tracker.KeptSnoc | tracker.py:83-84 | a record is appended exactly when the visit produced one |
| Tracker.RaiseStops | tracker.py:81-82 | a visit that raises after visits that returned is the first raise of the batch |
| Tracker.CollectStep | tracker.py:81-84 | a visit that returns extends the outcomes and appends its record, if any |
| Tracker.GetProductsInfo | tracker.py:78-85 | the call returns exactly when every visit returns; the result is the records produced, in identifier order; otherwise the exception of the first visit that raised |
| Tracker.KeptAppend | tracker.py:81-85 | collecting two batches in turn gives the records of each, in order |
| Tracker.KeptLength | tracker.py:81-85 | at most one record per identifier |
| Tracker.KeptMembers | tracker.py:83-84 | a record is collected exactly when some visit produced it |
| Tracker.CollectedRecords | tracker.py:78-108 | every collected record is complete, has the canonical URL and one of the identifiers, and there are no more records than links |
| Tracker.Run | tracker.py:64-76 | no links gives `None`; otherwise the collected records when every visit returns, and the first exception a visit raises when one raises |
| Report.InsertPermutes | tracker.py:46 | inserting into the sorted list adds exactly that record |
| Report.InsertSorted | tracker.py:46 | inserting keeps the list sorted by price |
| Report.InsertWithPrice | tracker.py:46 | an inserted record precedes every record of its own price |
| Report.SortByPrice | tracker.py:46 | `sorted` by price is a permutation of the data, sorted by price |
| Report.SortStable | tracker.py:46 | `sorted` keeps the input order of records of equal price |
| Report.FirstMinIndex | tracker.py:46 | the index of the first record, in input order, of least price |
| Report.SortHead | tracker.py:46 | the head of the sorted list is the first record of least price |
| Report.GetBestItem | tracker.py:44-50 | the best item is present exactly when the data is a non-empty list, and it is the first record of least price; `None` data or an empty list gives `None` |
| Report.Pad | tracker.py:42 | a zero-padded field has the given width and the number as its value |
| Report.FormatStamp | tracker.py:40-42 | the stamp has 17 characters: two-digit day, `/`, two-digit month, `/`, four-digit year, a space, and two digits each for hour, minute and second |
| Report.StampRoundTrip | tracker.py:40-42 | the stamp is 17 characters in the `%d/%m/%Y %H%M%S` layout and reads back as the clock reading |
| Report.StampInjective | tracker.py:40-42 | distinct clock readings give distinct stamps |
| Report.BuildReport | tracker.py:25-33 | the report keeps title, currency, filters, base link and data unchanged; its date reads back as the clock reading; its best item is present exactly for non-empty data, is one of the records, has the least price, and is the first record of least price |
| Scenarios.ConvertDollars | tracker.py:138-148 | `$1,234` newline `56` converts to 1234.56 |
| Scenarios.ConvertIndianGrouping | tracker.py:145 | `₹1,23,456` converts to 123.0 |
| Scenarios.ConvertSpacedRupees | tracker.py:138-148 | `₹ 1,299.00` converts to 1299.0 |
| Scenarios.ConvertMillions | tracker.py:138-148 | `$1,234,567.89` converts to 1234.0 |
| Scenarios.WidgetRecord | tracker.py:88-108 | a page with title, seller and a primary price gives the full record |
| Scenarios.NoSellerDropped | tracker.py:99-108 | a page without a seller gives no record |
| Scenarios.TwoResults | tracker.py:78-108 | of two search results, the one without a seller is dropped though cheaper, and the complete one is the best item |

## Left out

- The Selenium driver is not modelled. Pages are the input function `site`. The waits (`time.sleep`) and `driver.quit()` have no effect on the result and are left out.
- `get_products_link` (tracker.py:177-195) is left out: it depends entirely on the live search page. `run` takes its links as an input. Only the empty/non-empty test on those links is modelled.
- `print` diagnostics, the `json.dump` and the file write are left out. `BuildReport` returns the record that would be written.
- `datetime.now()` is left out. The clock reading is an input of `BuildReport`.
- The `amazon_config` module is not part of this model. Its values (name, currency, filters, base URL, directory) are parameters.
- Prices are exact `real` numbers, not IEEE doubles. Rounding in `float()` is not modelled.
- Decimal.ParseFloat: exponents, underscores, `inf`/`nan` and non-ASCII digits are treated as a `ValueError`, although Python's `float()` accepts them.
- Report.ValidDateTime: only four-digit years are covered, and the day is not checked against the length of its month.
- Tracker.NewAmazonApi: the filter bounds are natural numbers. The configuration could hold any value that an f-string renders.
- Tracker.GetProductPrice: exceptions that the browser itself may raise (time-outs, stale elements) are not modelled. Only a missing element is.
