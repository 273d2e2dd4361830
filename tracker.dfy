/** The scraper class `AmazonAPI`: the string handling of product links and
    prices, the three-tier price lookup on a loaded product page, and the
    loop that turns product links into product records.

    The browser is abstracted: a loaded page is a `Page` (element id to
    text, class name to text), and navigation is an oracle `site` from the
    URL the driver is sent to, to the page it then shows. */
module Tracker {
  import opened Results
  import opened PyStr
  import opened Decimal

  /** The price range of the settings module: `{'min': …, 'max': …}`. */
  datatype Filters = Filters(min: nat, max: nat)

  /** An `AmazonAPI` object. The constructor sets every field and nothing
      updates them later, so the object is a value. */
  datatype AmazonApi = AmazonApi(baseUrl: string, searchTerm: string, currency: string, priceFilter: string)

  /** A product record, the dict `{asin, url, title, seller, price}`. */
  datatype Product = Product(asin: string, url: string, title: string, seller: string, price: real)

  /** A loaded product page: the text of each element by id, and of each
      element by class name. */
  datatype Page = Page(ids: map<string, string>, classes: map<string, string>)

  const LanguageSuffix: string := "/?language=en_IN"

  // ---------------------------------------------------------------------
  // Construction and the price-filter fragment

  /** The query fragment that restricts search results to the price range. */
  function PriceFilter(filters: Filters): string
  {
    "&rh=p_36%3A" + NatToDecimal(filters.min) + "00-" + NatToDecimal(filters.max) + "00"
  }

  /** A price bound in hundredths of the currency unit: the digits the
      fragment sends for it, whose value is 100 times the bound. */
  function Hundredths(n: nat): (r: string)
    ensures AllDigits(r)
    ensures DigitsValue(r) == 100 * n
  {
    if n == 0 then
      var r := "000";
      assert DigitsValue(r) == 0 by {
        assert r[..2] == "00" && r[..2][..1] == "0" && r[..2][..1][..0] == [];
        assert DigitsValue("0") == 0;
        assert DigitsValue("00") == 0;
      }
      r
    else NatToDecimal(100 * n)
  }

  /** A bound followed by "00" is the bound in hundredths; 0 gives "000". */
  lemma BoundInHundredths(n: nat)
    ensures NatToDecimal(n) + "00" == Hundredths(n)
  {
    if n > 0 {
      AppendZerosTimes100(n);
    }
  }

  /** Appending "00" to each bound sends the range in hundredths of the
      currency unit. */
  lemma PriceFilterInHundredths(filters: Filters)
    ensures PriceFilter(filters)
         == "&rh=p_36%3A" + Hundredths(filters.min) + "-" + Hundredths(filters.max)
  {
    BoundInHundredths(filters.min);
    BoundInHundredths(filters.max);
  }

  /** `AmazonAPI(search_term, filters, base_url, currency)` without the driver. */
  function NewAmazonApi(searchTerm: string, filters: Filters, baseUrl: string, currency: string): (api: AmazonApi)
    ensures api.baseUrl == baseUrl && api.searchTerm == searchTerm && api.currency == currency
    ensures api.priceFilter == "&rh=p_36%3A" + Hundredths(filters.min) + "-" + Hundredths(filters.max)
  {
    PriceFilterInHundredths(filters);
    AmazonApi(baseUrl, searchTerm, currency, PriceFilter(filters))
  }

  // ---------------------------------------------------------------------
  // convert_price

  /** Stacked digits: the first two newline-separated segments joined by a
      point; a string without a newline passes through. */
  function JoinStacked(p: string): string
  {
    var parts := Split(p, "\n");
    if |parts| >= 2 then parts[0] + "." + parts[1] else p
  }

  /** Grouping: the text before the first comma followed by the text between
      the first and second comma; a string without a comma passes through. */
  function DropGrouping(p: string): string
  {
    var parts := Split(p, ",");
    if |parts| >= 2 then parts[0] + parts[1] else p
  }

  /** `convert_price`: the text between the first and second currency symbol,
      normalised, then `float()`. */
  function ConvertPrice(raw: string, cur: string): (r: Try<real>)
    ensures cur == "" ==> r == Raise(ValueError)
    ensures cur != "" && !Contains(raw, cur) ==> r == Raise(IndexError)
    ensures r.Raise? ==> r.exc == IndexError || r.exc == ValueError
    ensures r.Ok? ==> Contains(raw, cur)
  {
    if cur == [] then Raise(ValueError)
    else
      var parts := Split(raw, cur);
      if |parts| < 2 then Raise(IndexError)
      else
        match ParseFloat(DropGrouping(JoinStacked(parts[1])))
        case Some(v) => Ok(v)
        case None => Raise(ValueError)
  }

  /** The first occurrence of the symbol in `lead + cur + body`, when no
      occurrence ends inside the symbol itself and the body holds none. */
  lemma {:induction false} SplitAfterLead(lead: string, cur: string, body: string)
    requires cur != []
    requires !Contains(lead + cur[..|cur| - 1], cur)
    requires !Contains(body, cur)
    ensures Split(lead + cur + body, cur) == [lead, body]
  {
    var s := lead + cur + body;
    var x := lead + cur[..|cur| - 1];
    assert s == x + ([cur[|cur| - 1]] + body);
    assert s[|lead|..|lead| + |cur|] == cur;
    assert OccursAt(s, cur, |lead|);
    FindFirst(x, cur);
    forall j | 0 <= j < |lead|
      ensures !OccursAt(s, cur, j)
    {
      if OccursAt(s, cur, j) {
        OccursInPrefix(x, [cur[|cur| - 1]] + body, cur, j);
        assert false;
      }
    }
    FindIs(s, cur, |lead|);
    assert s[..|lead|] == lead;
    assert s[|lead| + |cur|..] == body;
    SplitNone(body, cur);
  }

  /** Whatever precedes the symbol is discarded: the price is read from the
      text after it. */
  lemma ConvertDiscardsLead(lead: string, cur: string, body: string)
    requires cur != []
    requires !Contains(lead + cur[..|cur| - 1], cur)
    requires !Contains(body, cur)
    ensures ConvertPrice(lead + cur + body, cur)
         == match ParseFloat(DropGrouping(JoinStacked(body)))
            case Some(v) => Ok(v)
            case None => Raise(ValueError)
  {
    SplitAfterLead(lead, cur, body);
  }

  /** A price string that starts with the symbol is read from the rest. */
  lemma ConvertAfterSymbol(cur: string, body: string, v: real)
    requires cur != [] && !Contains(body, cur)
    requires ParseFloat(DropGrouping(JoinStacked(body))) == Some(v)
    ensures ConvertPrice(cur + body, cur) == Ok(v)
  {
    var s := cur + body;
    assert OccursAt(s, cur, 0) by {
      assert s[0..|cur|] == cur;
    }
    assert s[|cur|..] == body;
    assert Split(s, cur) == [[], body] by {
      SplitNone(body, cur);
    }
  }

  /** A digit string has no newline, comma or point. */
  lemma DigitsHaveNoSeparators(w: string)
    requires AllDigits(w)
    ensures '\n' !in w && ',' !in w && '.' !in w
  {
    forall i | 0 <= i < |w| ensures w[i] != '\n' && w[i] != ',' && w[i] != '.' {
      assert IsDigit(w[i]);
    }
  }

  /** The newline step on `lead + "\n" + tail` with a single newline. */
  lemma {:induction false} JoinStackedOnce(lead: string, tail: string)
    requires '\n' !in lead && '\n' !in tail
    ensures JoinStacked(lead + "\n" + tail) == lead + "." + tail
  {
    SplitAtChar(lead, '\n', tail);
    SplitNoChar(tail, '\n');
  }

  /** The newline step keeps only the first two segments: text after a
      second newline is dropped. */
  lemma {:induction false} JoinStackedDropsRest(lead: string, mid: string, rest: string)
    requires '\n' !in lead && '\n' !in mid
    ensures JoinStacked(lead + "\n" + mid + "\n" + rest) == lead + "." + mid
  {
    assert "\n" == ['\n'];
    assert lead + "\n" + mid + "\n" + rest == lead + ['\n'] + (mid + ['\n'] + rest);
    SplitAtChar(lead, '\n', mid + ['\n'] + rest);
    SplitAtChar(mid, '\n', rest);
  }

  /** The newline step leaves a string without a newline unchanged. */
  lemma {:induction false} JoinStackedNone(p: string)
    requires '\n' !in p
    ensures JoinStacked(p) == p
  {
    SplitNoChar(p, '\n');
  }

  /** The comma step on `lead + "," + tail` with a single comma. */
  lemma {:induction false} DropGroupingOnce(lead: string, tail: string)
    requires ',' !in lead && ',' !in tail
    ensures DropGrouping(lead + "," + tail) == lead + tail
  {
    SplitAtChar(lead, ',', tail);
    SplitNoChar(tail, ',');
  }

  /** The comma step leaves a string without a comma unchanged. */
  lemma {:induction false} DropGroupingNone(p: string)
    requires ',' !in p
    ensures DropGrouping(p) == p
  {
    SplitNoChar(p, ',');
  }

  /** Normalising `a + "," + b + "\n" + frac` gives the literal `a + b + "." + frac`. */
  lemma GroupedStackedNormalised(a: string, b: string, frac: string)
    requires AllDigits(a) && AllDigits(b) && AllDigits(frac)
    ensures DropGrouping(JoinStacked(a + "," + b + "\n" + frac)) == (a + b) + "." + frac
  {
    DigitsHaveNoSeparators(a);
    DigitsHaveNoSeparators(b);
    DigitsHaveNoSeparators(frac);
    JoinStackedOnce(a + "," + b, frac);
    Regroup(a, b, frac);
    DropGroupingOnce(a, b + "." + frac);
  }

  lemma Regroup(a: string, b: string, frac: string)
    requires ',' !in b && ',' !in frac
    ensures a + "," + b + "." + frac == a + "," + (b + "." + frac)
    ensures a + (b + "." + frac) == (a + b) + "." + frac
    ensures ',' !in b + "." + frac
  {
  }

  /** The comma step keeps only the first two segments: text after a
      second comma is dropped. */
  lemma {:induction false} DropGroupingDropsRest(lead: string, mid: string, rest: string)
    requires ',' !in lead && ',' !in mid
    ensures DropGrouping(lead + "," + mid + "," + rest) == lead + mid
  {
    assert "," == [','];
    assert lead + "," + mid + "," + rest == lead + [','] + (mid + [','] + rest);
    SplitAtChar(lead, ',', mid + [','] + rest);
    SplitAtChar(mid, ',', rest);
  }

  /** The newline step leaves a newline-free prefix in place. */
  lemma JoinStackedPrefix(x: string, y: string)
    requires '\n' !in x
    ensures |JoinStacked(x + y)| >= |x| && JoinStacked(x + y)[..|x|] == x
  {
    assert "\n" == ['\n'];
    var k := Find(y, "\n");
    FindFirst(y, "\n");
    if k < 0 {
      forall i | 0 <= i < |y| ensures y[i] != '\n' {
        OccursAtChar(y, '\n', i);
      }
      assert '\n' !in x + y;
      SplitNoChar(x + y, '\n');
    } else {
      OccursAtChar(y, '\n', k);
      var y1, y2 := y[..k], y[k + 1..];
      forall i | 0 <= i < k ensures y1[i] != '\n' {
        OccursAtChar(y, '\n', i);
      }
      assert x + y == (x + y1) + ['\n'] + y2;
      SplitAtChar(x + y1, '\n', y2);
    }
  }

  /** Normalising `a + "," + b + "," + c` keeps only `a + b`, whatever
      follows the second comma. */
  lemma TwoCommasNormalised(a: string, b: string, c: string)
    requires AllDigits(a) && AllDigits(b)
    ensures DropGrouping(JoinStacked(a + "," + b + "," + c)) == a + b
  {
    DigitsHaveNoSeparators(a);
    DigitsHaveNoSeparators(b);
    var x := a + "," + b + ",";
    assert '\n' !in x;
    assert a + "," + b + "," + c == x + c;
    JoinStackedPrefix(x, c);
    var j := JoinStacked(x + c);
    var rest := j[|x|..];
    assert j == a + "," + b + "," + rest by {
      assert j == j[..|x|] + rest;
    }
    DropGroupingDropsRest(a, b, rest);
  }

  /** Stacked whole and fractional digits, `cur + whole + "\n" + frac`: the
      newline becomes the decimal point. */
  lemma ConvertStacked(cur: string, whole: string, frac: string)
    requires cur != [] && !Contains(whole + "\n" + frac, cur)
    requires AllDigits(whole) && AllDigits(frac) && |whole| + |frac| > 0
    ensures ConvertPrice(cur + (whole + "\n" + frac), cur) == Ok(PointValue(whole, frac))
  {
    var body := whole + "\n" + frac;
    var literal := whole + "." + frac;
    assert DropGrouping(JoinStacked(body)) == literal by {
      DigitsHaveNoSeparators(whole);
      DigitsHaveNoSeparators(frac);
      JoinStackedOnce(whole, frac);
      DropGroupingNone(literal);
    }
    assert ParseFloat(literal) == Some(PointValue(whole, frac)) by {
      ParseFloatPoint(whole, frac);
    }
    ConvertAfterSymbol(cur, body, PointValue(whole, frac));
  }

  /** Grouped and stacked digits, `cur + a + "," + b + "\n" + frac`: the
      comma is removed and the newline becomes the decimal point. */
  lemma ConvertGroupedStacked(cur: string, a: string, b: string, frac: string)
    requires cur != [] && !Contains(a + "," + b + "\n" + frac, cur)
    requires AllDigits(a) && AllDigits(b) && AllDigits(frac) && |a| > 0
    ensures ConvertPrice(cur + (a + "," + b + "\n" + frac), cur) == Ok(PointValue(a + b, frac))
  {
    var body := a + "," + b + "\n" + frac;
    var literal := (a + b) + "." + frac;
    GroupedStackedNormalised(a, b, frac);
    assert ParseFloat(literal) == Some(PointValue(a + b, frac)) by {
      assert AllDigits(a + b);
      ParseFloatPoint(a + b, frac);
    }
    ConvertAfterSymbol(cur, body, PointValue(a + b, frac));
  }

  /** Normalising `w + a + "," + b + "." + frac` removes the comma only. */
  lemma SpacedGroupedNormalised(w: string, a: string, b: string, frac: string)
    requires AllSpace(w) && '\n' !in w
    requires AllDigits(a) && AllDigits(b) && AllDigits(frac)
    ensures DropGrouping(JoinStacked(w + a + "," + b + "." + frac)) == w + ((a + b) + "." + frac)
  {
    DigitsHaveNoSeparators(a);
    DigitsHaveNoSeparators(b);
    DigitsHaveNoSeparators(frac);
    assert ',' !in w by {
      forall i | 0 <= i < |w| ensures w[i] != ',' { assert IsSpace(w[i]); }
    }
    SpacedRegroup(w, a, b, frac);
    JoinStackedNone(w + a + "," + b + "." + frac);
    DropGroupingOnce(w + a, b + "." + frac);
  }

  lemma SpacedRegroup(w: string, a: string, b: string, frac: string)
    requires '\n' !in w && '\n' !in a && '\n' !in b && '\n' !in frac
    requires ',' !in w && ',' !in a && ',' !in b && ',' !in frac
    ensures w + a + "," + b + "." + frac == (w + a) + "," + (b + "." + frac)
    ensures (w + a) + (b + "." + frac) == w + ((a + b) + "." + frac)
    ensures '\n' !in w + a + "," + b + "." + frac
    ensures ',' !in w + a && ',' !in b + "." + frac
  {
  }

  /** Spaces before a literal `whole.frac` are ignored by `float()`. */
  lemma SpacedLiteralValue(w: string, whole: string, frac: string)
    requires AllSpace(w) && AllDigits(whole) && AllDigits(frac) && |whole| > 0
    ensures ParseFloat(w + (whole + "." + frac)) == Some(PointValue(whole, frac))
  {
    var literal := whole + "." + frac;
    assert literal[0] == whole[0] && IsDigit(whole[0]);
    assert literal[|literal| - 1] == if frac == [] then '.' else frac[|frac| - 1];
    assert w + literal + [] == w + literal;
    ParseFloatPadded(w, literal, []);
    ParseFloatPoint(whole, frac);
  }

  /** The usual layout `cur + w + a + "," + b + "." + frac`, with spaces `w`
      after the symbol: the comma is removed and `float()` ignores the
      spaces. */
  lemma ConvertSpacedGrouped(cur: string, w: string, a: string, b: string, frac: string)
    requires cur != [] && !Contains(w + a + "," + b + "." + frac, cur)
    requires AllSpace(w) && '\n' !in w
    requires AllDigits(a) && AllDigits(b) && AllDigits(frac) && |a| > 0
    ensures ConvertPrice(cur + (w + a + "," + b + "." + frac), cur) == Ok(PointValue(a + b, frac))
  {
    SpacedGroupedNormalised(w, a, b, frac);
    assert AllDigits(a + b);
    SpacedLiteralValue(w, a + b, frac);
    ConvertAfterSymbol(cur, w + a + "," + b + "." + frac, PointValue(a + b, frac));
  }

  /** Only one grouping comma is removed: with two, everything after the
      second comma is lost, so `cur + a + "," + b + "," + c` reads as `a + b`. */
  lemma ConvertSecondCommaLost(cur: string, a: string, b: string, c: string)
    requires cur != [] && !Contains(a + "," + b + "," + c, cur)
    requires AllDigits(a) && AllDigits(b) && |a| > 0
    ensures ConvertPrice(cur + (a + "," + b + "," + c), cur) == Ok(DigitsValue(a + b) as real)
  {
    var body := a + "," + b + "," + c;
    TwoCommasNormalised(a, b, c);
    assert ParseFloat(a + b) == Some(DigitsValue(a + b) as real) by {
      assert AllDigits(a + b);
      ParseFloatInteger(a + b);
    }
    ConvertAfterSymbol(cur, body, DigitsValue(a + b) as real);
  }

  /** Without the currency symbol there is no price: `split(cur)[1]` fails. */
  lemma ConvertNeedsSymbol(raw: string, cur: string)
    requires !Contains(raw, cur)
    ensures ConvertPrice(raw, cur).Raise?
  {
  }

  // ---------------------------------------------------------------------
  // Links and product identifiers

  /** `shorten_url`: the canonical product URL. */
  function ShortenUrl(baseUrl: string, asin: string): (url: string)
    ensures |url| == |baseUrl| + 4 + |asin|
    ensures url[..|baseUrl|] == baseUrl && url[|baseUrl|..|baseUrl| + 4] == "/dp/"
    ensures url[|baseUrl| + 4..] == asin
  {
    baseUrl + "/dp/" + asin
  }

  /** `get_asin`: Python slice between `find('/dp/') + 4` and `find('/ref')`. */
  function GetAsin(link: string): (asin: string)
    ensures |asin| <= |link|
  {
    Slice(link, Find(link, "/dp/") + 4, Find(link, "/ref"))
  }

  /** With `/dp/` present and the first `/ref` after it, the identifier is
      exactly the text between them, and it holds no `/ref`. */
  lemma GetAsinBetween(link: string)
    requires Find(link, "/dp/") >= 0 && Find(link, "/ref") >= Find(link, "/dp/") + 4
    ensures GetAsin(link) == link[Find(link, "/dp/") + 4..Find(link, "/ref")]
    ensures !Contains(GetAsin(link), "/ref")
  {
    var i, j := Find(link, "/dp/") + 4, Find(link, "/ref");
    var asin := link[i..j];
    FindFirst(link, "/ref");
    if Contains(asin, "/ref") {
      OccursInSlice(link, i, j, "/ref", Find(asin, "/ref"));
      assert false;
    }
  }

  /** Without `/dp/` the slice starts at index 3 (`-1 + 4`). */
  lemma GetAsinWithoutDp(link: string)
    requires Find(link, "/dp/") < 0
    ensures GetAsin(link) == Slice(link, 3, Find(link, "/ref"))
  {
  }

  /** A `/ref` that starts before the start index `find('/dp/') + 4`
      crosses the slice bounds: the identifier is empty. */
  lemma GetAsinRefFirst(link: string)
    requires Find(link, "/dp/") >= 0 && 0 <= Find(link, "/ref") < Find(link, "/dp/") + 4
    ensures GetAsin(link) == ""
  {
    assert Find(link, "/dp/") + 4 <= |link|;
  }

  /** Without `/ref` the slice stops at index -1: the last character is
      dropped. */
  lemma GetAsinWithoutRef(link: string)
    requires Find(link, "/ref") < 0 && |link| >= 1
    requires Find(link, "/dp/") + 4 <= |link| - 1
    ensures GetAsin(link) == link[Find(link, "/dp/") + 4..|link| - 1]
  {
    var start, stop := Find(link, "/dp/") + 4, Find(link, "/ref");
    assert GetAsin(link) == Slice(link, start, stop);
    assert stop == -1;
    SliceToLast(link, start);
  }

  /** A character that can appear in an ASIN: an upper-case letter or a digit. */
  predicate IsAsinChar(c: char)
  {
    'A' <= c <= 'Z' || '0' <= c <= '9'
  }

  /** In a canonical product URL, `/dp/` is first found right after the
      base URL, when the base URL holds none and does not end in `/dp`. */
  lemma {:induction false} FindDpInUrl(baseUrl: string, tail: string)
    requires !Contains(baseUrl + "/dp", "/dp/")
    ensures Find(baseUrl + "/dp/" + tail, "/dp/") == |baseUrl|
  {
    var link := baseUrl + "/dp/" + tail;
    var n := |baseUrl|;
    assert OccursAt(link, "/dp/", n) by {
      assert link[n..n + 4] == "/dp/";
    }
    assert link == (baseUrl + "/dp") + ("/" + tail);
    FindFirst(baseUrl + "/dp", "/dp/");
    forall j | 0 <= j < n
      ensures !OccursAt(link, "/dp/", j)
    {
      if OccursAt(link, "/dp/", j) {
        OccursInPrefix(baseUrl + "/dp", "/" + tail, "/dp/", j);
        assert false;
      }
    }
    FindIs(link, "/dp/", n);
  }

  /** The characters around the identifier in a canonical URL followed by
      a `/ref` part. */
  lemma UrlChars(baseUrl: string, asin: string, rest: string)
    ensures var link := baseUrl + "/dp/" + asin + "/ref" + rest;
            var n := |baseUrl|;
            && |link| == n + 8 + |asin| + |rest|
            && link[n] == '/' && link[n + 1] == 'd' && link[n + 2] == 'p' && link[n + 3] == '/'
            && (forall i :: 0 <= i < |asin| ==> link[n + 4 + i] == asin[i])
            && link[n + 4 + |asin|] == '/' && link[n + 5 + |asin|] == 'r'
  {
    var link := baseUrl + "/dp/" + asin + "/ref" + rest;
    assert link == baseUrl + ("/dp/" + (asin + ("/ref" + rest)));
  }

  /** No `/ref` starts from three characters before `/dp/` up to the end of
      an identifier of upper-case letters and digits that follows it. */
  lemma NoRefNearAsin(link: string, n: int, asin: string, j: int)
    requires 0 <= n && 0 <= j && n - 3 <= j < n + 4 + |asin|
    requires n + 5 + |asin| < |link|
    requires link[n] == '/' && link[n + 1] == 'd' && link[n + 2] == 'p'
    requires forall i :: 0 <= i < |asin| ==> link[n + 4 + i] == asin[i]
    requires link[n + 4 + |asin|] == '/'
    requires forall i :: 0 <= i < |asin| ==> IsAsinChar(asin[i])
    ensures !OccursAt(link, "/ref", j)
  {
    var ref := "/ref";
    assert ref[0] == '/' && ref[1] == 'r' && ref[2] == 'e' && ref[3] == 'f';
    if j < n {
      Mismatch(link, ref, j, n - j);
    } else if j == n {
      Mismatch(link, ref, j, 1);
    } else if j == n + 1 || j == n + 2 {
      Mismatch(link, ref, j, 0);
    } else if j == n + 3 {
      if |asin| > 0 {
        assert link[n + 4 + 0] == asin[0];
        assert IsAsinChar(asin[0]);
      }
      Mismatch(link, ref, j, 1);
    } else {
      var i := j - n - 4;
      assert link[n + 4 + i] == asin[i];
      assert IsAsinChar(asin[i]);
      Mismatch(link, ref, j, 0);
    }
  }

  /** No `/ref` starts at `j` before the end of the identifier. */
  lemma NoRefBefore(baseUrl: string, asin: string, rest: string, j: int)
    requires !Contains(baseUrl, "/ref")
    requires forall i :: 0 <= i < |asin| ==> IsAsinChar(asin[i])
    requires 0 <= j < |baseUrl| + 4 + |asin|
    ensures !OccursAt(baseUrl + "/dp/" + asin + "/ref" + rest, "/ref", j)
  {
    var link := baseUrl + "/dp/" + asin + "/ref" + rest;
    if j + 4 <= |baseUrl| {
      FindFirst(baseUrl, "/ref");
      if OccursAt(link, "/ref", j) {
        assert link == baseUrl + ("/dp/" + asin + "/ref" + rest);
        OccursInPrefix(baseUrl, "/dp/" + asin + "/ref" + rest, "/ref", j);
        assert false;
      }
    } else {
      UrlChars(baseUrl, asin, rest);
      NoRefNearAsin(link, |baseUrl|, asin, j);
    }
  }

  /** In a canonical product URL followed by a `/ref` part, `/ref` is first
      found right after the identifier. */
  lemma {:induction false} FindRefAfterAsin(baseUrl: string, asin: string, rest: string)
    requires !Contains(baseUrl, "/ref")
    requires forall i :: 0 <= i < |asin| ==> IsAsinChar(asin[i])
    ensures Find(baseUrl + "/dp/" + asin + "/ref" + rest, "/ref") == |baseUrl| + 4 + |asin|
  {
    var link := baseUrl + "/dp/" + asin + "/ref" + rest;
    var p := |baseUrl| + 4 + |asin|;
    assert OccursAt(link, "/ref", p) by {
      assert link[p..p + 4] == "/ref";
    }
    forall j | 0 <= j < p
      ensures !OccursAt(link, "/ref", j)
    {
      NoRefBefore(baseUrl, asin, rest, j);
    }
    FindIs(link, "/ref", p);
  }

  /** The identifier of a canonical product URL followed by a `/ref` part is
      read back exactly, when the base URL holds no `/dp/` or `/ref` of its
      own (and does not end in `/dp`). */
  lemma {:induction false} AsinRoundTrip(baseUrl: string, asin: string, rest: string)
    requires !Contains(baseUrl + "/dp", "/dp/") && !Contains(baseUrl, "/ref")
    requires forall i :: 0 <= i < |asin| ==> IsAsinChar(asin[i])
    ensures GetAsin(ShortenUrl(baseUrl, asin) + "/ref" + rest) == asin
  {
    var link := baseUrl + "/dp/" + asin + "/ref" + rest;
    var n := |baseUrl|;
    UrlPieces(baseUrl, asin, rest);
    FindDpInUrl(baseUrl, asin + "/ref" + rest);
    FindRefAfterAsin(baseUrl, asin, rest);
    assert GetAsin(link) == Slice(link, n + 4, n + 4 + |asin|);
    SliceWithin(link, n + 4, n + 4 + |asin|);
  }

  /** The same link grouped with its tail, and where the identifier sits in it. */
  lemma UrlPieces(baseUrl: string, asin: string, rest: string)
    ensures var link := baseUrl + "/dp/" + asin + "/ref" + rest;
            && link == baseUrl + "/dp/" + (asin + "/ref" + rest)
            && link[|baseUrl| + 4..|baseUrl| + 4 + |asin|] == asin
  {
    var link := baseUrl + "/dp/" + asin + "/ref" + rest;
    assert link == baseUrl + "/dp/" + (asin + "/ref" + rest);
    assert link[|baseUrl| + 4..|baseUrl| + 4 + |asin|] == asin;
  }

  /** `get_asins`: `get_asin` of every link, in order. */
  function GetAsins(links: seq<string>): (asins: seq<string>)
    ensures |asins| == |links|
    ensures forall k :: 0 <= k < |links| ==> asins[k] == GetAsin(links[k])
  {
    seq(|links|, k requires 0 <= k < |links| => GetAsin(links[k]))
  }

  /** The identifiers of two lists of links are those of each, in order. */
  lemma GetAsinsAppend(a: seq<string>, b: seq<string>)
    ensures GetAsins(a + b) == GetAsins(a) + GetAsins(b)
  {
  }

  // ---------------------------------------------------------------------
  // Field lookups on a loaded page

  /** `driver.find_element_by_id(id).text`. */
  function FindById(page: Page, id: string): (r: Try<string>)
    ensures r.Ok? <==> id in page.ids
    ensures r.Ok? ==> r.value == page.ids[id]
    ensures r.Raise? ==> r.exc == NoSuchElement
  {
    if id in page.ids then Ok(page.ids[id]) else Raise(NoSuchElement)
  }

  /** `get_product_title`: any failure becomes `None`. */
  function GetProductTitle(page: Page): (title: Option<string>)
    ensures title.Some? <==> "productTitle" in page.ids
    ensures title.Some? ==> title.value == page.ids["productTitle"]
  {
    match FindById(page, "productTitle")
    case Ok(text) => Some(text)
    case Raise(_) => None
  }

  /** `get_product_seller`: any failure becomes `None`. */
  function GetProductSeller(page: Page): (seller: Option<string>)
    ensures seller.Some? <==> "bylineInfo" in page.ids
    ensures seller.Some? ==> seller.value == page.ids["bylineInfo"]
  {
    match FindById(page, "bylineInfo")
    case Ok(text) => Some(text)
    case Raise(_) => None
  }

  // ---------------------------------------------------------------------
  // get_product_price

  /** Tier 1: the primary price element, converted. */
  function PrimaryPrice(page: Page, cur: string): (r: Try<real>)
    ensures r == Raise(NoSuchElement) <==> "priceblock_ourprice" !in page.ids
    ensures r.Raise? ==> r.exc in {NoSuchElement, IndexError, ValueError}
  {
    var text :- FindById(page, "priceblock_ourprice");
    ConvertPrice(text, cur)
  }

  /** Tier 2: if the availability text says "Available", the deal price,
      sliced from the first currency symbol, converted. */
  function DealPrice(page: Page, cur: string): (r: Try<Option<real>>)
    ensures r == Raise(NoSuchElement) <==>
              || "availability" !in page.ids
              || (Contains(page.ids["availability"], "Available") && "priceblock_dealprice" !in page.ids)
    ensures r == Ok(None) <==> "availability" in page.ids && !Contains(page.ids["availability"], "Available")
    ensures r.Raise? ==> r.exc in {NoSuchElement, IndexError, ValueError}
  {
    var availability :- FindById(page, "availability");
    if !Contains(availability, "Available") then Ok(None)
    else
      var text :- FindById(page, "priceblock_dealprice");
      var v :- ConvertPrice(SliceFrom(text, Find(text, cur)), cur);
      Ok(Some(v))
  }

  /** Tier 3 as written: the availability check again, then `find` is
      called on the element of class `a-color-price` itself, not on its
      text; a WebElement has no `find`, so this raises `AttributeError`. */
  function ClassPrice(page: Page, cur: string): (r: Try<Option<real>>)
    ensures r.Ok? ==> r.value == None
  {
    var availability :- FindById(page, "availability");
    if !Contains(availability, "Available") then Ok(None)
    else if "a-color-price" in page.classes then Raise(AttributeError)
    else Raise(NoSuchElement)
  }

  /** `get_product_price`. Around tiers 1 and 2 only `NoSuchElementException`
      is caught; around tier 3 every exception is caught and gives `None`. */
  function GetProductPrice(page: Page, cur: string): (r: Try<Option<real>>)
    ensures r.Raise? ==> r.exc == IndexError || r.exc == ValueError
  {
    match PrimaryPrice(page, cur)
    case Ok(v) => Ok(Some(v))
    case Raise(NoSuchElement) =>
      (match DealPrice(page, cur)
       case Raise(NoSuchElement) =>
         (match ClassPrice(page, cur)
          case Ok(p) => Ok(p)
          case Raise(_) => Ok(None))
       case other => other)
    case Raise(e) => Raise(e)
  }

  /** `convert_price` reads only the text between the first and the second
      symbol, so two prices with the same such text convert alike. */
  lemma ConvertBySecondPart(a: string, b: string, cur: string)
    requires cur != [] && Contains(a, cur) && Contains(b, cur)
    requires Split(a, cur)[1] == Split(b, cur)[1]
    ensures ConvertPrice(a, cur) == ConvertPrice(b, cur)
  {
  }

  /** The second part of a split is the first part of what follows the
      first separator. */
  lemma SplitSecond(s: string, sep: string)
    requires sep != [] && Contains(s, sep)
    ensures Split(s, sep)[1] == Split(s[Find(s, sep) + |sep|..], sep)[0]
  {
  }

  /** A text cut at an occurrence of the symbol starts with that symbol. */
  lemma CutAtOccurrence(text: string, cur: string, i: int)
    requires cur != [] && OccursAt(text, cur, i)
    ensures Find(text[i..], cur) == 0
    ensures text[i..][|cur|..] == text[i + |cur|..]
  {
    assert text[i..][..|cur|] == text[i..i + |cur|];
  }

  /** Cut at its first symbol, a text still holds the symbol and splits
      with the same second part. */
  lemma SliceKeepsSecondPart(text: string, cur: string)
    requires cur != [] && Contains(text, cur)
    ensures var sliced := text[Find(text, cur)..];
            Contains(sliced, cur) && Split(sliced, cur)[1] == Split(text, cur)[1]
  {
    var i := Find(text, cur);
    var sliced, tail := text[i..], text[i + |cur|..];
    CutAtOccurrence(text, cur, i);
    assert sliced[Find(sliced, cur) + |cur|..] == tail;
    SplitSecond(sliced, cur);
    SplitSecond(text, cur);
  }

  /** Without the symbol, the slice from index -1 is symbol-free too. */
  lemma SliceMissesSymbol(text: string, cur: string)
    requires cur != [] && !Contains(text, cur)
    ensures !Contains(SliceFrom(text, Find(text, cur)), cur)
  {
    FindFirst(text, cur);
    var off := ClampIndex(-1, |text|);
    var sliced := SliceFrom(text, -1);
    assert sliced == text[off..|text|];
    if Contains(sliced, cur) {
      OccursInSlice(text, off, |text|, cur, Find(sliced, cur));
      assert false;
    }
  }

  /** Slicing from the first currency symbol before converting never
      changes the outcome of `convert_price`. */
  lemma SliceToSymbolNeutral(text: string, cur: string)
    ensures ConvertPrice(SliceFrom(text, Find(text, cur)), cur) == ConvertPrice(text, cur)
  {
    if cur != [] {
      if Contains(text, cur) {
        SliceKeepsSecondPart(text, cur);
        ConvertBySecondPart(text[Find(text, cur)..], text, cur);
      } else {
        SliceMissesSymbol(text, cur);
      }
    }
  }

  /** A `Try<real>` from a tier, as the `Try<Option<real>>` the lookup returns. */
  function Lift(t: Try<real>): Try<Option<real>>
  {
    match t
    case Ok(v) => Ok(Some(v))
    case Raise(e) => Raise(e)
  }

  /** When the primary element exists, its converted text is the result,
      parse failures included, and no other element is consulted. */
  lemma PrimaryDecides(page: Page, other: Page, cur: string)
    requires "priceblock_ourprice" in page.ids
    requires "priceblock_ourprice" in other.ids
    requires other.ids["priceblock_ourprice"] == page.ids["priceblock_ourprice"]
    ensures GetProductPrice(page, cur) == Lift(ConvertPrice(page.ids["priceblock_ourprice"], cur))
    ensures GetProductPrice(other, cur) == GetProductPrice(page, cur)
  {
  }

  /** Without the primary element, an availability text that says
      "Available" and a deal-price element give the converted deal price. */
  lemma DealPriceUsed(page: Page, cur: string)
    requires "priceblock_ourprice" !in page.ids
    requires "availability" in page.ids && Contains(page.ids["availability"], "Available")
    requires "priceblock_dealprice" in page.ids
    ensures GetProductPrice(page, cur) == Lift(ConvertPrice(page.ids["priceblock_dealprice"], cur))
  {
    var text := page.ids["priceblock_dealprice"];
    SliceToSymbolNeutral(text, cur);
  }

  /** Without the primary element, an availability text that does not say
      "Available" gives `None`, and tier 3 is never tried. */
  lemma UnavailableGivesNone(page: Page, cur: string)
    requires "priceblock_ourprice" !in page.ids
    requires "availability" in page.ids && !Contains(page.ids["availability"], "Available")
    ensures GetProductPrice(page, cur) == Ok(None)
  {
  }

  /** Every path that reaches tier 3 ends in `None`. */
  lemma ThirdTierGivesNone(page: Page, cur: string)
    requires "priceblock_ourprice" !in page.ids
    requires "availability" !in page.ids
          || (Contains(page.ids["availability"], "Available") && "priceblock_dealprice" !in page.ids)
    ensures GetProductPrice(page, cur) == Ok(None)
  {
  }

  /** A price is found only by tier 1 or by tier 2, as stated above. */
  lemma PriceOrigin(page: Page, cur: string, v: real)
    requires GetProductPrice(page, cur) == Ok(Some(v))
    ensures || ("priceblock_ourprice" in page.ids
                && ConvertPrice(page.ids["priceblock_ourprice"], cur) == Ok(v))
            || ("priceblock_ourprice" !in page.ids
                && "availability" in page.ids && Contains(page.ids["availability"], "Available")
                && "priceblock_dealprice" in page.ids
                && ConvertPrice(page.ids["priceblock_dealprice"], cur) == Ok(v))
  {
    if "priceblock_ourprice" !in page.ids {
      if "priceblock_dealprice" in page.ids {
        SliceToSymbolNeutral(page.ids["priceblock_dealprice"], cur);
      }
    }
  }

  // ---------------------------------------------------------------------
  // get_single_product_info

  /** Python truthiness of a lookup result: present and non-empty. */
  predicate TruthyText(t: Option<string>)
    ensures TruthyText(t) <==> t !in {None, Some("")}
  {
    t.Some? && t.value != ""
  }

  /** Python truthiness of a price: present and non-zero. */
  predicate TruthyPrice(p: Option<real>)
    ensures TruthyPrice(p) <==> p !in {None, Some(0.0)}
  {
    p.Some? && p.value != 0.0
  }

  /** The page the driver shows for a product: its URL with the language
      suffix. */
  function ProductPage(api: AmazonApi, site: string -> Page, asin: string): Page
  {
    site(ShortenUrl(api.baseUrl, asin) + LanguageSuffix)
  }

  /** `get_single_product_info`: a record only when title, seller and price
      are all truthy; a parse error from the price lookup propagates. */
  function GetSingleProductInfo(api: AmazonApi, site: string -> Page, asin: string): (r: Outcome)
    ensures r.Ok? && r.value.Some? ==> r.value.value.asin == asin && Complete(api, r.value.value)
  {
    var url := ShortenUrl(api.baseUrl, asin);
    var page := ProductPage(api, site, asin);
    var title := GetProductTitle(page);
    var seller := GetProductSeller(page);
    var price :- GetProductPrice(page, api.currency);
    if TruthyText(title) && TruthyText(seller) && TruthyPrice(price) then
      Ok(Some(Product(asin, url, title.value, seller.value, price.value)))
    else
      Ok(None)
  }

  /** A record is produced exactly when title, seller and price are truthy;
      it carries the input identifier and the URL without the language
      suffix. The call raises exactly when the price lookup raises. */
  lemma SingleProductRecord(api: AmazonApi, site: string -> Page, asin: string)
    ensures var page := ProductPage(api, site, asin);
            var title := GetProductTitle(page);
            var seller := GetProductSeller(page);
            var price := GetProductPrice(page, api.currency);
            && (GetSingleProductInfo(api, site, asin).Raise? <==> price.Raise?)
            && (GetSingleProductInfo(api, site, asin).Ok? && GetSingleProductInfo(api, site, asin).value.Some?
                <==> price.Ok? && TruthyText(title) && TruthyText(seller) && TruthyPrice(price.value))
            && (GetSingleProductInfo(api, site, asin).Ok? && GetSingleProductInfo(api, site, asin).value.Some? ==>
                  GetSingleProductInfo(api, site, asin).value.value
                  == Product(asin, api.baseUrl + "/dp/" + asin, title.value, seller.value, price.value.value))
  {
  }

  /** A product record as the collector keeps it: every field truthy and the
      URL canonical for its identifier. */
  predicate Complete(api: AmazonApi, p: Product)
  {
    p.title != "" && p.seller != "" && p.price != 0.0 && p.url == ShortenUrl(api.baseUrl, p.asin)
  }

  // ---------------------------------------------------------------------
  // get_products_info and run

  /** What visiting one identifier gives: a record, nothing, or an exception. */
  type Outcome = Try<Option<Product>>

  /** `get_single_product_info` for fixed settings and browser, as a function
      of the identifier. */
  function Visit(api: AmazonApi, site: string -> Page): string -> Outcome
  {
    asin => GetSingleProductInfo(api, site, asin)
  }

  /** The outcome of visiting each identifier, in order. */
  function Outcomes(visit: string -> Outcome, asins: seq<string>): seq<Outcome>
    decreases |asins|
  {
    if asins == [] then []
    else Outcomes(visit, asins[..|asins| - 1]) + [visit(asins[|asins| - 1])]
  }

  /** One outcome per identifier. */
  lemma {:induction false} OutcomesLength(visit: string -> Outcome, asins: seq<string>)
    ensures |Outcomes(visit, asins)| == |asins|
    decreases |asins|
  {
    if asins != [] {
      OutcomesLength(visit, asins[..|asins| - 1]);
    }
  }

  /** One more identifier adds its own outcome at the end. */
  lemma OutcomesSnoc(visit: string -> Outcome, asins: seq<string>, i: nat)
    requires i < |asins|
    ensures Outcomes(visit, asins[..i + 1]) == Outcomes(visit, asins[..i]) + [visit(asins[i])]
  {
    assert asins[..i + 1][..i] == asins[..i];
  }

  /** Each outcome is that of its own identifier. */
  lemma {:induction false} OutcomesAt(visit: string -> Outcome, asins: seq<string>, k: nat)
    requires k < |asins|
    ensures |Outcomes(visit, asins)| == |asins|
    ensures Outcomes(visit, asins)[k] == visit(asins[k])
    decreases |asins|
  {
    var init := asins[..|asins| - 1];
    OutcomesLength(visit, init);
    if k < |init| {
      OutcomesAt(visit, init, k);
      assert init[k] == asins[k];
    }
  }

  /** The records of the outcomes that produced one, in order. */
  function Kept(rs: seq<Outcome>): seq<Product>
    decreases |rs|
  {
    if rs == [] then []
    else
      var last := rs[|rs| - 1];
      Kept(rs[..|rs| - 1]) + (if last.Ok? && last.value.Some? then [last.value.value] else [])
  }

  /** `k` is the first outcome that raised. */
  predicate FirstRaiseAt(rs: seq<Outcome>, k: int)
  {
    0 <= k < |rs| && rs[k].Raise? && forall j :: 0 <= j < k ==> rs[j].Ok?
  }

  /** One more outcome adds its record, if any, at the end. */
  lemma KeptSnoc(rs: seq<Outcome>, x: Outcome)
    ensures Kept(rs + [x]) == Kept(rs) + (if x.Ok? && x.value.Some? then [x.value.value] else [])
  {
    assert (rs + [x])[..|rs|] == rs;
  }

  /** If the outcomes before `i` all returned and the one at `i` raised,
      `i` is the first raise of the whole run. */
  lemma RaiseStops(visit: string -> Outcome, asins: seq<string>, i: nat, seen: seq<Outcome>)
    requires i < |asins| && seen == Outcomes(visit, asins[..i])
    requires forall j :: 0 <= j < |seen| ==> seen[j].Ok?
    requires visit(asins[i]).Raise?
    ensures FirstRaiseAt(Outcomes(visit, asins), i)
    ensures Outcomes(visit, asins)[i] == visit(asins[i])
  {
    var rs := Outcomes(visit, asins);
    OutcomesAt(visit, asins, i);
    forall j | 0 <= j < i ensures rs[j].Ok? {
      OutcomesAt(visit, asins, j);
      OutcomesAt(visit, asins[..i], j);
      assert asins[..i][j] == asins[j];
    }
  }

  /** `get_products_info`: visits every identifier in order and appends each
      record produced; the first exception ends the whole call. */
  method GetProductsInfo(api: AmazonApi, site: string -> Page, links: seq<string>)
    returns (r: Try<seq<Product>>)
    ensures var rs := Outcomes(Visit(api, site), GetAsins(links));
            && (r.Ok? <==> forall k :: 0 <= k < |rs| ==> rs[k].Ok?)
            && (r.Ok? ==> r.value == Kept(rs))
            && (r.Raise? ==> exists k :: FirstRaiseAt(rs, k) && r.exc == rs[k].exc)
  {
    var asins := GetAsins(links);
    var visit := Visit(api, site);
    ghost var seen: seq<Outcome> := [];
    var products: seq<Product> := [];
    var i := 0;
    while i < |asins|
      invariant 0 <= i <= |asins|
      invariant seen == Outcomes(visit, asins[..i])
      invariant forall j :: 0 <= j < |seen| ==> seen[j].Ok?
      invariant products == Kept(seen)
    {
      var product := visit(asins[i]);
      if product.Raise? {
        RaiseStops(visit, asins, i, seen);
        assert FirstRaiseAt(Outcomes(visit, asins), i);
        assert Outcomes(visit, asins)[i].exc == product.exc;
        return Raise(product.exc);
      }
      CollectStep(visit, asins, i, seen, product);
      seen := seen + [product];
      if product.value.Some? {
        products := products + [product.value.value];
      }
      i := i + 1;
    }
    assert asins[..i] == asins;
    assert seen == Outcomes(visit, asins);
    r := Ok(products);
  }

  /** One more identifier whose visit returned: its outcome extends the
      outcomes seen, and its record, if any, the records kept. */
  lemma CollectStep(visit: string -> Outcome, asins: seq<string>, i: nat, seen: seq<Outcome>, product: Outcome)
    requires i < |asins| && seen == Outcomes(visit, asins[..i])
    requires forall j :: 0 <= j < |seen| ==> seen[j].Ok?
    requires product == visit(asins[i]) && product.Ok?
    ensures seen + [product] == Outcomes(visit, asins[..i + 1])
    ensures forall j :: 0 <= j < |seen + [product]| ==> (seen + [product])[j].Ok?
    ensures Kept(seen + [product]) == Kept(seen) + (if product.value.Some? then [product.value.value] else [])
  {
    OutcomesSnoc(visit, asins, i);
    KeptSnoc(seen, product);
  }

  /** `run` without the browser: the links found by the search are an input.
      No links gives `None`; otherwise the collected records, or the first
      exception a visit raises. */
  method Run(api: AmazonApi, site: string -> Page, links: seq<string>)
    returns (r: Try<Option<seq<Product>>>)
    ensures links == [] ==> r == Ok(None)
    ensures links != [] ==>
              var rs := Outcomes(Visit(api, site), GetAsins(links));
              && (r.Ok? <==> forall k :: 0 <= k < |rs| ==> rs[k].Ok?)
              && (r.Ok? ==> r.value == Some(Kept(rs)))
              && (r.Raise? ==> exists k :: FirstRaiseAt(rs, k) && r.exc == rs[k].exc)
  {
    if links == [] {
      return Ok(None);
    }
    var products := GetProductsInfo(api, site, links);
    match products {
      case Ok(ps) => r := Ok(Some(ps));
      case Raise(e) => r := Raise(e);
    }
  }

  // ---------------------------------------------------------------------
  // Properties of the collected records

  /** The records of consecutive batches are those of each batch, in order. */
  lemma {:induction false} KeptAppend(a: seq<Outcome>, b: seq<Outcome>)
    ensures Kept(a + b) == Kept(a) + Kept(b)
    decreases |b|
  {
    if b == [] {
      assert a + b == a;
    } else {
      assert (a + b)[..|a + b| - 1] == a + b[..|b| - 1];
      KeptAppend(a, b[..|b| - 1]);
    }
  }

  /** At most one record per outcome. */
  lemma {:induction false} KeptLength(rs: seq<Outcome>)
    ensures |Kept(rs)| <= |rs|
    decreases |rs|
  {
    if rs != [] {
      KeptLength(rs[..|rs| - 1]);
    }
  }

  /** A record is kept exactly when some outcome produced it. */
  lemma {:induction false} KeptMembers(rs: seq<Outcome>, p: Product)
    ensures p in Kept(rs) <==> exists k :: 0 <= k < |rs| && rs[k] == Ok(Some(p))
    decreases |rs|
  {
    if rs != [] {
      var init, last := rs[..|rs| - 1], rs[|rs| - 1];
      KeptMembers(init, p);
      assert p in Kept(rs) <==> p in Kept(init) || last == Ok(Some(p));
      assert (exists k :: 0 <= k < |rs| && rs[k] == Ok(Some(p)))
             <==> (exists k :: 0 <= k < |init| && init[k] == Ok(Some(p))) || last == Ok(Some(p)) by {
        if exists k :: 0 <= k < |init| && init[k] == Ok(Some(p)) {
          var k :| 0 <= k < |init| && init[k] == Ok(Some(p));
          assert rs[k] == init[k];
        }
        if exists k :: 0 <= k < |rs| && rs[k] == Ok(Some(p)) {
          var k :| 0 <= k < |rs| && rs[k] == Ok(Some(p));
          if k < |init| { assert init[k] == rs[k]; }
        }
      }
    }
  }


  /** Every collected record is complete and belongs to one of the
      identifiers; there are no more records than links. */
  lemma CollectedRecords(api: AmazonApi, site: string -> Page, links: seq<string>, p: Product)
    requires p in Kept(Outcomes(Visit(api, site), GetAsins(links)))
    ensures Complete(api, p)
    ensures p.asin in GetAsins(links)
    ensures |Kept(Outcomes(Visit(api, site), GetAsins(links)))| <= |links|
  {
    var asins := GetAsins(links);
    var rs := Outcomes(Visit(api, site), asins);
    OutcomesLength(Visit(api, site), asins);
    assert |Kept(rs)| <= |links| by {
      KeptLength(rs);
    }
    assert exists k :: 0 <= k < |rs| && rs[k] == Ok(Some(p)) by {
      KeptMembers(rs, p);
    }
    var k :| 0 <= k < |rs| && rs[k] == Ok(Some(p));
    OutcomesAt(Visit(api, site), asins, k);
    assert rs[k] == GetSingleProductInfo(api, site, asins[k]);
  }

}
