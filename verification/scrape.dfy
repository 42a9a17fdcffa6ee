/**
 The scrape command's `parseContent` end to end: structure check, the three
 positional passes, the sort and the key removal.
 */
module ScrapeCommand {
  import opened Results
  import opened PriceText
  import opened Listings
  import opened Ranking

  /**
   What `parseContent` returns for a page: the assembled products sorted by
   annual cost, dearest first and stable on ties, without `annual_price`;
   or the error that stops it. The sort fails when it would read the
   `annual_price` of an entry that has none.
   */
  function ScrapeProducts(page: Page): (r: Result<seq<Product>, ScrapeError>)
    ensures Assemble(page).Err? ==> r == Err(Assemble(page).error)
    ensures r.Ok? ==> Assemble(page).Ok? && |r.value| == ProductCount(page)
    ensures r.Err? && Assemble(page).Ok? ==> r.error == UndefinedAnnualPrice
  {
    match Assemble(page)
    case Err(e) => Err(e)
    case Ok(products) =>
      if ReadsMissingCost(products) then Err(UndefinedAnnualPrice)
      else Ok(RemoveKeys(SortDesc(products)))
  }

  /** The entry at index i of the products array, or an empty one past its end. */
  function At(products: seq<RankedProduct>, i: nat): RankedProduct {
    if i < |products| then products[i] else EmptySlot
  }

  /** Assignment to index i of the products array: overwrite the slot, or append when i is the next free index. */
  function Put(products: seq<RankedProduct>, i: nat, p: RankedProduct): (r: seq<RankedProduct>)
    requires i <= |products|
    ensures |r| == Max(|products|, i + 1)
    ensures r[i] == p
    ensures forall j :: 0 <= j < |products| && j != i ==> r[j] == products[j]
  {
    if i < |products| then products[i := p] else products + [p]
  }

  /** The products array holds slots 0 .. n-1 after the given passes. */
  ghost predicate Filled(page: Page, products: seq<RankedProduct>, nt: nat, nd: nat, np: nat)
    requires nt <= |page.titles| && nd <= |page.descriptions| && np <= |page.prices|
    requires forall j :: 0 <= j < np ==> |page.prices[j].spans| > 0
  {
    && |products| == Max(Max(nt, nd), np)
    && forall j :: 0 <= j < |products| ==> products[j] == Slot(page, j, nt, nd, np)
  }

  /** The title pass: each title node starts a fresh entry at its own index holding only the title. */
  method TitlePass(page: Page) returns (products: seq<RankedProduct>)
    ensures Filled(page, products, |page.titles|, 0, 0)
  {
    products := [];
    var i := 0;
    while i < |page.titles|
      invariant 0 <= i <= |page.titles|
      invariant Filled(page, products, i, 0, 0)
    {
      products := Put(products, i, EmptySlot.(title := Some(page.titles[i])));
      i := i + 1;
    }
  }

  /** The description pass over the `package-name` nodes. */
  method DescriptionPass(page: Page, titled: seq<RankedProduct>) returns (products: seq<RankedProduct>)
    requires Filled(page, titled, |page.titles|, 0, 0)
    ensures Filled(page, products, |page.titles|, |page.descriptions|, 0)
  {
    products := titled;
    var i := 0;
    while i < |page.descriptions|
      invariant 0 <= i <= |page.descriptions|
      invariant Filled(page, products, |page.titles|, i, 0)
    {
      products := Put(products, i, At(products, i).(description := Some(page.descriptions[i])));
      i := i + 1;
    }
  }

  /**
   One iteration of the price pass: the price from the first span, then
   either an annual plan (a paragraph holds the discount and the price is
   the annual cost) or a monthly one (no discount, twelve payments).
   */
  method PriceEntry(node: PriceNode, slot: RankedProduct) returns (entry: RankedProduct)
    requires |node.spans| > 0
    ensures var plan := PlanOf(node);
      entry == slot.(price := Some(plan.price), discount := Some(plan.discount), annualPrice := Some(plan.annualPrice))
  {
    var price := ExtractPrice(node.spans[0]);
    entry := slot.(price := Some(price));
    if |node.paragraphs| > 0 {
      entry := entry.(discount := Some(ExtractPrice(node.paragraphs[0])), annualPrice := Some(price));
    } else {
      entry := entry.(discount := Some(0.0), annualPrice := Some(price * 12.0));
    }
  }

  /** Writing the plan of price node i into slot i advances the price pass by one node. */
  lemma PriceStep(page: Page, products: seq<RankedProduct>, i: nat)
    requires i < |page.prices|
    requires forall j :: 0 <= j <= i ==> |page.prices[j].spans| > 0
    requires Filled(page, products, |page.titles|, |page.descriptions|, i)
    ensures var plan := PlanOf(page.prices[i]);
      var entry := At(products, i).(price := Some(plan.price), discount := Some(plan.discount), annualPrice := Some(plan.annualPrice));
      Filled(page, Put(products, i, entry), |page.titles|, |page.descriptions|, i + 1)
  {
  }

  /** Once every price node has been visited, the array is the assembled product list. */
  lemma FilledIsAssembly(page: Page, products: seq<RankedProduct>)
    requires page.containers > 0
    requires forall j :: 0 <= j < |page.prices| ==> |page.prices[j].spans| > 0
    requires Filled(page, products, |page.titles|, |page.descriptions|, |page.prices|)
    ensures Assemble(page) == Ok(products)
  {
    assert FirstSpanless(page.prices).None?;
    var expected := seq(ProductCount(page), j requires 0 <= j =>
      Slot(page, j, |page.titles|, |page.descriptions|, |page.prices|));
    assert |expected| == |products|;
    assert forall j :: 0 <= j < |products| ==> expected[j] == products[j];
    assert expected == products;
  }

  /** The first price node without a span stops the command with an error naming it. */
  lemma SpanlessStops(page: Page, i: nat)
    requires page.containers > 0
    requires i < |page.prices| && |page.prices[i].spans| == 0
    requires forall j :: 0 <= j < i ==> |page.prices[j].spans| > 0
    ensures Assemble(page) == Err(MissingPriceSpan(i))
  {
    var first := FirstSpanless(page.prices);
    assert first.Some?;
    assert first.value == i;
  }

  /**
   The price pass over the `package-price` nodes, with the monthly/annual
   rule; it stops at the first node without a span.
   */
  method PricePass(page: Page, described: seq<RankedProduct>) returns (r: Result<seq<RankedProduct>, ScrapeError>)
    requires page.containers > 0
    requires Filled(page, described, |page.titles|, |page.descriptions|, 0)
    ensures r == Assemble(page)
  {
    var products := described;
    var i := 0;
    while i < |page.prices|
      invariant 0 <= i <= |page.prices|
      invariant forall j :: 0 <= j < i ==> |page.prices[j].spans| > 0
      invariant Filled(page, products, |page.titles|, |page.descriptions|, i)
    {
      var node := page.prices[i];
      if |node.spans| == 0 {
        SpanlessStops(page, i);
        return Err(MissingPriceSpan(i));
      }
      var entry := PriceEntry(node, At(products, i));
      PriceStep(page, products, i);
      products := Put(products, i, entry);
      i := i + 1;
    }
    FilledIsAssembly(page, products);
    r := Ok(products);
  }

  /**
   `parseContent` as written: the structure check, three passes that each
   write index 0, 1, 2, ... of a growing products array, then `usort` and
   `removeKeys`; the sort stops on an entry without `annual_price`. It
   returns exactly what the positional description
   ScrapeProducts gives.
   */
  method ParseContent(page: Page) returns (r: Result<seq<Product>, ScrapeError>)
    ensures r == ScrapeProducts(page)
  {
    if page.containers == 0 {
      return Err(InvalidStructure);
    }
    var products := TitlePass(page);
    products := DescriptionPass(page, products);
    var assembled := PricePass(page, products);
    if assembled.Err? {
      return Err(assembled.error);
    }
    if ReadsMissingCost(assembled.value) {
      return Err(UndefinedAnnualPrice);
    }
    var sorted := SortByAnnualCost(assembled.value);
    SortDescCorrect(assembled.value);
    StableSortUnique(sorted, SortDesc(assembled.value));
    r := Ok(RemoveKeys(sorted));
  }

  /** No product container: an error and no product list at all. */
  lemma NoContainerNoProducts(page: Page)
    requires page.containers == 0
    ensures ScrapeProducts(page) == Err(InvalidStructure)
  {
  }

  /**
   Only the price nodes give an entry its `annual_price`, so the sort reads
   a missing one exactly when there are two products or more and fewer
   price nodes than products.
   */
  lemma MissingCostIff(page: Page)
    requires Assemble(page).Ok?
    ensures ReadsMissingCost(Assemble(page).value)
      <==> ProductCount(page) >= 2 && |page.prices| < ProductCount(page)
  {
    var products := Assemble(page).value;
    if |page.prices| < ProductCount(page) {
      UnpricedProduct(page, |page.prices|);
      assert products[|page.prices|].annualPrice.None?;
    }
    if ReadsMissingCost(products) {
      var i :| 0 <= i < |products| && products[i].annualPrice.None?;
      assert |page.prices| <= i;
    }
  }

  /**
   Once the page is assembled, the command fails exactly when the sort
   reads a missing `annual_price`. Otherwise the output holds one product
   per index any pass wrote, and it is the assembled list reordered stably
   by non-increasing annual cost with the annual costs removed.
   */
  lemma ScrapeRanksAssembly(page: Page)
    requires Assemble(page).Ok?
    ensures ScrapeProducts(page).Ok?
      <==> ProductCount(page) < 2 || |page.prices| == ProductCount(page)
    ensures ScrapeProducts(page).Err? ==> ScrapeProducts(page).error == UndefinedAnnualPrice
    ensures ScrapeProducts(page).Ok? ==> exists ranked ::
      && NonIncreasing(ranked)
      && multiset(ranked) == multiset(Assemble(page).value)
      && StableReorder(ranked, Assemble(page).value)
      && ScrapeProducts(page).value == RemoveKeys(ranked)
  {
    MissingCostIff(page);
    var products := Assemble(page).value;
    SortDescCorrect(products);
    var ranked := SortDesc(products);
    assert |ranked| == |products| by {
      assert |multiset(ranked)| == |multiset(products)|;
    }
  }

  /** A page whose three node lists line up and whose price nodes all hold a span. */
  predicate WellFormed(page: Page) {
    && page.containers > 0
    && |page.titles| == |page.descriptions| == |page.prices|
    && forall j :: 0 <= j < |page.prices| ==> |page.prices[j].spans| > 0
  }

  /** Every output key of the entry is set. */
  predicate Complete(p: RankedProduct) {
    p.title.Some? && p.description.Some? && p.price.Some? && p.discount.Some?
  }

  lemma WellFormedAssemblyIsComplete(page: Page)
    requires WellFormed(page)
    ensures Assemble(page).Ok?
    ensures |Assemble(page).value| == |page.titles|
    ensures forall q :: q in Assemble(page).value ==> Complete(q) && q.annualPrice.Some?
  {
    var products := Assemble(page).value;
    forall q | q in products
      ensures Complete(q) && q.annualPrice.Some?
    {
      var i :| 0 <= i < |products| && products[i] == q;
    }
  }

  /** Sorting and removing keys keeps every entry, so completeness carries over. */
  lemma RankingKeepsComplete(products: seq<RankedProduct>)
    requires forall q :: q in products ==> Complete(q)
    ensures |RemoveKeys(SortDesc(products))| == |products|
    ensures forall i :: 0 <= i < |products| ==> Complete(SortDesc(products)[i])
  {
    SortDescCorrect(products);
    var ranked := SortDesc(products);
    assert |ranked| == |products| by {
      assert |multiset(ranked)| == |multiset(products)|;
    }
    forall i | 0 <= i < |ranked|
      ensures Complete(ranked[i])
    {
      assert ranked[i] in multiset(products);
    }
  }

  /** With lined-up node lists there is one complete product per title node. */
  lemma WellFormedPageGivesCompleteProducts(page: Page)
    requires WellFormed(page)
    ensures ScrapeProducts(page).Ok?
    ensures |ScrapeProducts(page).value| == |page.titles|
    ensures forall p :: p in ScrapeProducts(page).value ==>
      p.title.Some? && p.description.Some? && p.price.Some? && p.discount.Some?
  {
    WellFormedAssemblyIsComplete(page);
    var products := Assemble(page).value;
    assert !ReadsMissingCost(products) by {
      forall i | 0 <= i < |products|
        ensures products[i].annualPrice.Some?
      {
        assert products[i] in products;
      }
    }
    RankingKeepsComplete(products);
    var out := RemoveKeys(SortDesc(products));
    forall p | p in out
      ensures p.title.Some? && p.description.Some? && p.price.Some? && p.discount.Some?
    {
      var i :| 0 <= i < |out| && out[i] == p;
      assert Complete(SortDesc(products)[i]);
    }
  }

  /**
   Worked example: A costs "Â£10.00" a month (no paragraph), B costs
   "Â£100.00" a year with "Save Â£20.00".
   */
  const ExamplePage: Page := Page(2, ["A", "B"], ["a", "b"], [
    PriceNode([MisdecodedPound + "10.00"], []),
    PriceNode([MisdecodedPound + "100.00"], [SaveWord + MisdecodedPound + "20.00"])])

  const ExampleA: RankedProduct := RankedProduct(Some("A"), Some("a"), Some(10.0), Some(0.0), Some(120.0))
  const ExampleB: RankedProduct := RankedProduct(Some("B"), Some("b"), Some(100.0), Some(20.0), Some(100.0))

  lemma ExampleTenPounds()
    ensures ExtractPrice(MisdecodedPound + "10.00") == 10.0
  {
    assert DecimalDigits(1) == "1";
    assert DecimalDigits(10) == DecimalDigits(1) + [DigitChar(0)];
    assert FormatAmount(10, 0) == "10.00";
    ExtractPoundPrice(10, 0);
  }

  lemma ExampleHundredPounds()
    ensures ExtractPrice(MisdecodedPound + "100.00") == 100.0
  {
    assert DecimalDigits(1) == "1";
    assert DecimalDigits(10) == DecimalDigits(1) + [DigitChar(0)];
    assert DecimalDigits(100) == DecimalDigits(10) + [DigitChar(0)];
    assert FormatAmount(100, 0) == "100.00";
    ExtractPoundPrice(100, 0);
  }

  lemma ExampleTwentySaved()
    ensures ExtractPrice(SaveWord + MisdecodedPound + "20.00") == 20.0
  {
    assert DecimalDigits(2) == "2";
    assert DecimalDigits(20) == DecimalDigits(2) + [DigitChar(0)];
    assert FormatAmount(20, 0) == "20.00";
    ExtractSavePrice(20, 0);
  }

  /** The monthly plan's annual cost is 120, the annual plan's 100 with a discount of 20. */
  lemma ExamplePlans()
    ensures PlanOf(ExamplePage.prices[0]) == Plan(10.0, 0.0, 120.0)
    ensures PlanOf(ExamplePage.prices[1]) == Plan(100.0, 20.0, 100.0)
  {
    ExampleTenPounds();
    ExampleHundredPounds();
    ExampleTwentySaved();
  }

  lemma ExampleAssembly()
    ensures Assemble(ExamplePage) == Ok([ExampleA, ExampleB])
  {
    var page := ExamplePage;
    ExamplePlans();
    assert FirstSpanless(page.prices) == None;
    var assembled := Assemble(page).value;
    assert |assembled| == 2;
    assert assembled[0] == Slot(page, 0, 2, 2, 2) == ExampleA;
    assert assembled[1] == Slot(page, 1, 2, 2, 2) == ExampleB;
    PairOf(assembled);
  }

  lemma PairOf<T>(s: seq<T>)
    requires |s| == 2
    ensures s == [s[0], s[1]]
  {
  }

  /** A's annual cost 120 beats B's 100, so A stays first. */
  lemma ExampleRanking()
    ensures SortDesc([ExampleA, ExampleB]) == [ExampleA, ExampleB]
  {
    assert [ExampleA, ExampleB][..1] == [ExampleA];
    assert SortDesc([ExampleA]) == Insert(ExampleA, []) == [ExampleA];
    assert SortDesc([ExampleA, ExampleB]) == Insert(ExampleB, [ExampleA]);
    assert Insert(ExampleB, [ExampleA]) == [ExampleA] + Insert(ExampleB, []);
  }

  /**
   End to end: A comes first, and neither product carries its annual cost
   in the output.
   */
  lemma MonthlyAndAnnualExample()
    ensures ScrapeProducts(ExamplePage)
      == Ok([Product(Some("A"), Some("a"), Some(10.0), Some(0.0)),
             Product(Some("B"), Some("b"), Some(100.0), Some(20.0))])
  {
    ExampleAssembly();
    assert !ReadsMissingCost([ExampleA, ExampleB]);
    ExampleRanking();
    var out := RemoveKeys([ExampleA, ExampleB]);
    assert out[0] == Product(Some("A"), Some("a"), Some(10.0), Some(0.0));
    assert out[1] == Product(Some("B"), Some("b"), Some(100.0), Some(20.0));
    PairOf(out);
  }

  /**
   Two products and one price node: the sort reads the second product's
   missing `annual_price`, and the command stops with that error.
   */
  lemma UnpricedSecondProductFails()
    ensures ScrapeProducts(Page(1, ["A", "B"], ["a", "b"], [PriceNode([MisdecodedPound + "0"], [])]))
      == Err(UndefinedAnnualPrice)
  {
    var page := Page(1, ["A", "B"], ["a", "b"], [PriceNode([MisdecodedPound + "0"], [])]);
    assert FirstSpanless(page.prices) == None;
    MissingCostIff(page);
  }

  /** A lone product is never compared, so it is output without any price keys. */
  lemma LoneUnpricedProduct()
    ensures ScrapeProducts(Page(1, ["A"], [], [])) == Ok([Product(Some("A"), None, None, None)])
  {
    var page := Page(1, ["A"], [], []);
    var products := Assemble(page).value;
    assert |products| == 1 && products[0] == RankedProduct(Some("A"), None, None, None, None);
    assert products == [products[0]];
    assert SortDesc(products) == Insert(products[0], SortDesc([])) == products;
    assert !ReadsMissingCost(products);
    var out := RemoveKeys(products);
    assert |out| == 1 && out[0] == Product(Some("A"), None, None, None);
    assert out == [out[0]];
  }
}
