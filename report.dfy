/** The report written after a run (`GenerateReport`): the best item, the
    time stamp and the assembled record. */
module Report {
  import opened Results
  import opened Decimal
  import opened Tracker

  // ---------------------------------------------------------------------
  // Python's stable `sorted(data, key=lambda k: k['price'])`

  predicate SortedByPrice(s: seq<Product>)
  {
    forall i, j :: 0 <= i < j < |s| ==> s[i].price <= s[j].price
  }

  /** Places `p` before the first element whose price is not below its own,
      so that `p` precedes every element of equal price. */
  function Insert(p: Product, s: seq<Product>): (r: seq<Product>)
    ensures |r| == |s| + 1
  {
    if s == [] || p.price <= s[0].price then [p] + s
    else [s[0]] + Insert(p, s[1..])
  }

  /** Inserting adds exactly `p`. */
  lemma {:induction false} InsertPermutes(p: Product, s: seq<Product>)
    ensures multiset(Insert(p, s)) == multiset(s) + multiset{p}
    decreases |s|
  {
    if s != [] && p.price > s[0].price {
      InsertPermutes(p, s[1..]);
      assert s == [s[0]] + s[1..];
    }
  }

  /** Every element of the result is `p` or an element of `s`. */
  lemma InsertMember(p: Product, s: seq<Product>, q: Product)
    requires q in Insert(p, s)
    ensures q == p || q in s
  {
    InsertPermutes(p, s);
    assert q in multiset(Insert(p, s));
  }

  lemma {:induction false} InsertSorted(p: Product, s: seq<Product>)
    requires SortedByPrice(s)
    ensures SortedByPrice(Insert(p, s))
    decreases |s|
  {
    if s != [] && p.price > s[0].price {
      var t := s[1..];
      InsertSorted(p, t);
      var r := Insert(p, s);
      assert r == [s[0]] + Insert(p, t);
      forall j | 1 <= j < |r| ensures s[0].price <= r[j].price {
        InsertMember(p, t, r[j]);
      }
    }
  }

  /** Python `sorted` on the price key: each element is inserted, from the
      last to the first, in front of the elements of equal price. */
  function SortByPrice(s: seq<Product>): (r: seq<Product>)
    ensures |r| == |s|
    ensures multiset(r) == multiset(s)
    ensures SortedByPrice(r)
  {
    if s == [] then []
    else
      var t := SortByPrice(s[1..]);
      InsertSorted(s[0], t);
      InsertPermutes(s[0], t);
      assert s == [s[0]] + s[1..];
      Insert(s[0], t)
  }

  /** The elements of a given price, in their order. */
  function WithPrice(s: seq<Product>, x: real): seq<Product>
  {
    if s == [] then []
    else (if s[0].price == x then [s[0]] else []) + WithPrice(s[1..], x)
  }

  lemma WithPriceCons(q: Product, t: seq<Product>, x: real)
    ensures WithPrice([q] + t, x) == (if q.price == x then [q] else []) + WithPrice(t, x)
  {
    assert ([q] + t)[1..] == t;
  }

  /** Putting `q` in front of both sides keeps an equation `u = b + t` on
      the elements of price `x`, when `b` holds none of `q`'s price. */
  lemma WithPriceFront(q: Product, u: seq<Product>, t: seq<Product>, b: seq<Product>, x: real)
    requires WithPrice(u, x) == b + WithPrice(t, x)
    requires b == [] || q.price != x
    ensures WithPrice([q] + u, x) == b + WithPrice([q] + t, x)
  {
    WithPriceCons(q, u, x);
    WithPriceCons(q, t, x);
    var w := WithPrice(t, x);
    if q.price == x {
      assert [q] + ([] + w) == [] + ([q] + w);
    } else {
      assert [] + (b + w) == b + ([] + w);
    }
  }

  lemma {:induction false} InsertWithPrice(p: Product, s: seq<Product>, x: real)
    ensures WithPrice(Insert(p, s), x) == (if p.price == x then [p] else []) + WithPrice(s, x)
    decreases |s|
  {
    if s == [] || p.price <= s[0].price {
      WithPriceCons(p, s, x);
    } else {
      InsertWithPrice(p, s[1..], x);
      WithPriceFront(s[0], Insert(p, s[1..]), s[1..], if p.price == x then [p] else [], x);
      assert s == [s[0]] + s[1..];
    }
  }

  /** Stability: the elements of each price keep their input order. */
  lemma {:induction false} SortStable(s: seq<Product>, x: real)
    ensures WithPrice(SortByPrice(s), x) == WithPrice(s, x)
    decreases |s|
  {
    if s != [] {
      SortStable(s[1..], x);
      InsertWithPrice(s[0], SortByPrice(s[1..]), x);
    }
  }

  /** The first element, in input order, of least price. */
  function FirstMinIndex(s: seq<Product>): (k: nat)
    requires s != []
    ensures k < |s|
    ensures forall j :: 0 <= j < |s| ==> s[k].price <= s[j].price
    ensures forall j :: 0 <= j < k ==> s[j].price > s[k].price
  {
    if |s| == 1 then 0
    else
      var k := FirstMinIndex(s[1..]);
      assert forall j :: 1 <= j < |s| ==> s[j] == s[1..][j - 1];
      if s[0].price <= s[1 + k].price then 0 else 1 + k
  }

  /** The elements of price `x` start with the first element of that price. */
  lemma {:induction false} WithPriceFirst(s: seq<Product>, x: real, k: nat)
    requires k < |s| && s[k].price == x
    requires forall j :: 0 <= j < k ==> s[j].price != x
    ensures WithPrice(s, x) != [] && WithPrice(s, x)[0] == s[k]
    decreases |s|
  {
    if k > 0 {
      assert forall j :: 0 <= j < k - 1 ==> s[1..][j] == s[j + 1];
      WithPriceFirst(s[1..], x, k - 1);
    }
  }

  /** The head of the sorted list is the first element of least price. */
  lemma SortHead(s: seq<Product>)
    requires s != []
    ensures SortByPrice(s)[0] == s[FirstMinIndex(s)]
  {
    var r := SortByPrice(s);
    var k := FirstMinIndex(s);
    var x := s[k].price;
    assert r[0] in multiset(s);
    assert s[k] in multiset(r);
    var i :| 0 <= i < |r| && r[i] == s[k];
    assert r[0].price == x;
    WithPriceFirst(r, x, 0);
    WithPriceFirst(s, x, k);
    SortStable(s, x);
  }

  /** `get_best_item`: the head of the sorted data. `sorted(None)` raises
      `TypeError` and `[0]` of an empty list `IndexError`; both are caught
      and give `None`. */
  function GetBestItem(data: Option<seq<Product>>): (r: Option<Product>)
    ensures r.Some? <==> data.Some? && data.value != []
    ensures r.Some? ==> r.value == data.value[FirstMinIndex(data.value)]
  {
    var head: Try<Product> :=
      match data
      case None => Raise(TypeError)
      case Some(s) => if SortByPrice(s) == [] then Raise(IndexError) else Ok(SortByPrice(s)[0]);
    match head
    case Ok(p) =>
      SortHead(data.value);
      Some(p)
    case Raise(_) => None
  }

  // ---------------------------------------------------------------------
  // get_now: strftime("%d/%m/%Y %H%M%S")

  datatype DateTime = DateTime(year: nat, month: nat, day: nat, hour: nat, minute: nat, second: nat)

  /** The field ranges of a clock reading; four-digit years only. */
  predicate ValidDateTime(t: DateTime)
  {
    && 1000 <= t.year <= 9999 && 1 <= t.month <= 12 && 1 <= t.day <= 31
    && t.hour < 24 && t.minute < 60 && t.second < 60
  }

  /** `n` as exactly `width` decimal digits, zero-padded on the left. */
  function Pad(n: nat, width: nat): (r: string)
    requires n < Pow10(width)
    ensures |r| == width && AllDigits(r)
    ensures DigitsValue(r) == n
  {
    if width == 0 then []
    else
      var prefix := Pad(n / 10, width - 1);
      var r := prefix + [DigitChar(n % 10)];
      assert r[..|r| - 1] == prefix;
      r
  }

  /** `get_now` applied to the clock reading `t`. */
  function FormatStamp(t: DateTime): (r: string)
    requires ValidDateTime(t)
    ensures |r| == 17 && r[2] == '/' && r[5] == '/' && r[10] == ' '
    ensures AllDigits(r[0..2]) && AllDigits(r[3..5]) && AllDigits(r[6..10])
    ensures AllDigits(r[11..13]) && AllDigits(r[13..15]) && AllDigits(r[15..17])
  {
    StampLayout(Pad(t.day, 2), Pad(t.month, 2), Pad(t.year, 4),
                Pad(t.hour, 2), Pad(t.minute, 2), Pad(t.second, 2));
    Pad(t.day, 2) + "/" + Pad(t.month, 2) + "/" + Pad(t.year, 4) + " "
    + Pad(t.hour, 2) + Pad(t.minute, 2) + Pad(t.second, 2)
  }

  /** Reads a stamp of the `get_now` layout back into its fields. */
  function ParseStamp(s: string): (r: Option<DateTime>)
    ensures r.Some? ==> |s| == 17
  {
    if |s| == 17 && s[2] == '/' && s[5] == '/' && s[10] == ' '
       && AllDigits(s[0..2]) && AllDigits(s[3..5]) && AllDigits(s[6..10])
       && AllDigits(s[11..13]) && AllDigits(s[13..15]) && AllDigits(s[15..17])
    then
      Some(DateTime(DigitsValue(s[6..10]), DigitsValue(s[3..5]), DigitsValue(s[0..2]),
                    DigitsValue(s[11..13]), DigitsValue(s[13..15]), DigitsValue(s[15..17])))
    else
      None
  }

  /** Where each field sits in the `get_now` layout. */
  lemma StampLayout(d: string, mo: string, y: string, h: string, mi: string, se: string)
    requires |d| == 2 && |mo| == 2 && |y| == 4 && |h| == 2 && |mi| == 2 && |se| == 2
    ensures var s := d + "/" + mo + "/" + y + " " + h + mi + se;
            && |s| == 17 && s[2] == '/' && s[5] == '/' && s[10] == ' '
            && s[0..2] == d && s[3..5] == mo && s[6..10] == y
            && s[11..13] == h && s[13..15] == mi && s[15..17] == se
  {
    var s := d + "/" + mo + "/" + y + " " + h + mi + se;
    assert s[0..2] == d;
    assert s[3..5] == mo;
    assert s[6..10] == y;
    assert s[11..13] == h;
    assert s[13..15] == mi;
    assert s[15..17] == se;
  }

  /** The stamp has the fixed layout and reads back as the clock reading. */
  lemma StampRoundTrip(t: DateTime)
    requires ValidDateTime(t)
    ensures |FormatStamp(t)| == 17
    ensures ParseStamp(FormatStamp(t)) == Some(t)
  {
    StampLayout(Pad(t.day, 2), Pad(t.month, 2), Pad(t.year, 4),
                Pad(t.hour, 2), Pad(t.minute, 2), Pad(t.second, 2));
  }

  /** Distinct clock readings give distinct stamps. */
  lemma StampInjective(a: DateTime, b: DateTime)
    requires ValidDateTime(a) && ValidDateTime(b)
    requires FormatStamp(a) == FormatStamp(b)
    ensures a == b
  {
    StampRoundTrip(a);
    StampRoundTrip(b);
  }

  // ---------------------------------------------------------------------
  // The report record

  datatype ReportRecord = ReportRecord(
    title: string,
    date: string,
    bestItem: Option<Product>,
    currency: string,
    filters: Filters,
    baseLink: string,
    products: Option<seq<Product>>)

  /** `GenerateReport.__init__` up to the file write: `data` is stored
      unchanged (`None` when the run found no links) and the clock reading
      is an input. */
  function BuildReport(fileName: string, filters: Filters, baseLink: string, currency: string,
                       data: Option<seq<Product>>, now: DateTime): (r: ReportRecord)
    requires ValidDateTime(now)
    ensures r.title == fileName && r.currency == currency && r.filters == filters
    ensures r.baseLink == baseLink && r.products == data
    ensures ParseStamp(r.date) == Some(now)
    ensures r.bestItem.Some? <==> data.Some? && data.value != []
    ensures r.bestItem.Some? ==>
              && r.bestItem.value in data.value
              && forall q :: q in data.value ==> r.bestItem.value.price <= q.price
    ensures r.bestItem.Some? ==> r.bestItem.value == data.value[FirstMinIndex(data.value)]
  {
    StampRoundTrip(now);
    ReportRecord(fileName, FormatStamp(now), GetBestItem(data), currency, filters, baseLink, data)
  }
}
