/**
 Field assembly of the scrape command (`parseContent`): product N takes the
 Nth title node, the Nth `package-name` node and the Nth `package-price`
 node, matched by position only. The XPath queries are not modelled; a page
 is given by what they return.
 */
module Listings {
  import opened Results
  import opened PriceText

  /** A `package-price` element: the texts of its `span` and of its `p` descendants, in document order. */
  datatype PriceNode = PriceNode(spans: seq<string>, paragraphs: seq<string>)

  /**
   What the queries on one document return: how many `div` elements have a
   class containing "package ", and the texts of the `h3` title nodes, of the
   `package-name` nodes and the `package-price` nodes, in document order.
   */
  datatype Page = Page(containers: nat, titles: seq<string>, descriptions: seq<string>, prices: seq<PriceNode>)

  /**
   One entry of the products array while it is being built and sorted. Every
   field is a key that may never have been set: the three passes fill the
   array by index, so unequal node counts leave keys missing.
   */
  datatype RankedProduct = RankedProduct(
    title: Option<string>,
    description: Option<string>,
    price: Option<real>,
    discount: Option<real>,
    annualPrice: Option<real>)
  {
    /** The entry without its `annual_price` key. */
    function Public(): Product {
      Product(title, description, price, discount)
    }
  }

  /** A product as the command outputs it. */
  datatype Product = Product(
    title: Option<string>,
    description: Option<string>,
    price: Option<real>,
    discount: Option<real>)

  /** Why no product list is produced. */
  datatype ScrapeError =
    | InvalidStructure         // no div with a class containing "package "
    | MissingPriceSpan(index: nat)  // extractPrice is handed the null of an absent span
    | UndefinedAnnualPrice     // the comparator reads the annual_price key of an unpriced entry

  /** An array slot no pass has written to. */
  const EmptySlot: RankedProduct := RankedProduct(None, None, None, None, None)

  /** The priced part of a product. */
  datatype Plan = Plan(price: real, discount: real, annualPrice: real)

  /**
   The monthly/annual rule: a price node holding a paragraph is an annual
   plan whose discount is read from the first paragraph; any other is
   monthly, with no discount and twelve payments a year.
   */
  function PlanOf(node: PriceNode): (plan: Plan)
    requires |node.spans| > 0
    ensures plan.price == ExtractPrice(node.spans[0])
    ensures 0.0 <= plan.price <= plan.annualPrice
    ensures 0.0 <= plan.discount
  {
    var price := ExtractPrice(node.spans[0]);
    if |node.paragraphs| > 0 then Plan(price, ExtractPrice(node.paragraphs[0]), price)
    else Plan(price, 0.0, price * 12.0)
  }

  function Max(a: nat, b: nat): nat {
    if a >= b then a else b
  }

  /** Number of entries in the products array: one per index any pass wrote. */
  function ProductCount(page: Page): nat {
    Max(Max(|page.titles|, |page.descriptions|), |page.prices|)
  }

  /** Index of the first price node without a span, if there is one. */
  function FirstSpanless(prices: seq<PriceNode>): (r: Option<nat>)
    ensures r.Some? ==> r.value < |prices| && |prices[r.value].spans| == 0
    ensures r.Some? ==> forall j :: 0 <= j < r.value ==> |prices[j].spans| > 0
    ensures r.None? ==> forall j :: 0 <= j < |prices| ==> |prices[j].spans| > 0
  {
    if |prices| == 0 then None
    else if |prices[0].spans| == 0 then Some(0)
    else match FirstSpanless(prices[1..])
      case None => None
      case Some(k) => Some(k + 1)
  }

  /**
   Slot i after the title pass has visited the first nt title nodes, the
   description pass the first nd description nodes and the price pass the
   first np price nodes.
   */
  function Slot(page: Page, i: nat, nt: nat, nd: nat, np: nat): RankedProduct
    requires nt <= |page.titles| && nd <= |page.descriptions| && np <= |page.prices|
    requires forall j :: 0 <= j < np ==> |page.prices[j].spans| > 0
  {
    var title := if i < nt then Some(page.titles[i]) else None;
    var description := if i < nd then Some(page.descriptions[i]) else None;
    if i < np then
      var plan := PlanOf(page.prices[i]);
      RankedProduct(title, description, Some(plan.price), Some(plan.discount), Some(plan.annualPrice))
    else
      RankedProduct(title, description, None, None, None)
  }

  /**
   The products array `parseContent` builds before sorting, or the error it
   stops with: first the structure check, then the first price node whose
   span is missing.
   */
  function Assemble(page: Page): (r: Result<seq<RankedProduct>, ScrapeError>)
    ensures page.containers == 0 ==> r == Err(InvalidStructure)
    ensures r.Ok? ==> |r.value| == ProductCount(page)
  {
    if page.containers == 0 then Err(InvalidStructure)
    else match FirstSpanless(page.prices)
      case Some(j) => Err(MissingPriceSpan(j))
      case None =>
        var n := |page.titles|;
        var d := |page.descriptions|;
        var p := |page.prices|;
        Ok(seq(ProductCount(page), i requires 0 <= i => Slot(page, i, n, d, p)))
  }

  /** Assembly fails exactly when the container check fails or some price node has no span. */
  lemma AssembleFailsIff(page: Page)
    ensures Assemble(page).Err? <==>
      page.containers == 0 || exists j :: 0 <= j < |page.prices| && |page.prices[j].spans| == 0
  {
  }

  /**
   Alignment is by position only: product i carries the ith title and the
   ith description when those exist, and no such key otherwise.
   */
  lemma PositionalAlignment(page: Page, i: nat)
    requires Assemble(page).Ok? && i < |Assemble(page).value|
    ensures var p := Assemble(page).value[i];
      && (p.title.Some? <==> i < |page.titles|)
      && (i < |page.titles| ==> p.title.value == page.titles[i])
      && (p.description.Some? <==> i < |page.descriptions|)
      && (i < |page.descriptions| ==> p.description.value == page.descriptions[i])
      && (p.price.Some? <==> i < |page.prices|)
      && (i < |page.prices| ==> p.price.value == ExtractPrice(page.prices[i].spans[0]))
  {
  }

  /** A price node without a paragraph is a monthly plan: no discount, annual cost twelve times the price. */
  lemma MonthlyPlanRule(page: Page, i: nat)
    requires Assemble(page).Ok? && i < |page.prices| && |page.prices[i].paragraphs| == 0
    ensures var p := Assemble(page).value[i];
      var price := ExtractPrice(page.prices[i].spans[0]);
      p.price == Some(price) && p.discount == Some(0.0) && p.annualPrice == Some(price * 12.0)
  {
  }

  /** A price node with a paragraph is an annual plan: the discount is read from the first paragraph and the annual cost is the price itself. */
  lemma AnnualPlanRule(page: Page, i: nat)
    requires Assemble(page).Ok? && i < |page.prices| && |page.prices[i].paragraphs| > 0
    ensures var p := Assemble(page).value[i];
      var price := ExtractPrice(page.prices[i].spans[0]);
      && p.price == Some(price)
      && p.discount == Some(ExtractPrice(page.prices[i].paragraphs[0]))
      && p.annualPrice == Some(price)
  {
  }

  /** Every assembled entry with an annual cost has a non-negative one. */
  lemma AssembledCostsNonNegative(page: Page)
    requires Assemble(page).Ok?
    ensures forall q :: q in Assemble(page).value ==>
      q.annualPrice.Some? ==> q.annualPrice.value >= 0.0
  {
    var products := Assemble(page).value;
    forall q | q in products
      ensures q.annualPrice.Some? ==> q.annualPrice.value >= 0.0
    {
      var i :| 0 <= i < |products| && products[i] == q;
    }
  }

  /** A product past the last price node has none of the three price keys. */
  lemma UnpricedProduct(page: Page, i: nat)
    requires Assemble(page).Ok? && |page.prices| <= i < |Assemble(page).value|
    ensures var p := Assemble(page).value[i];
      p.price == None && p.discount == None && p.annualPrice == None
  {
  }

  /**
   `removeKeys`: the same entries in the same order, each without its
   `annual_price` key.
   */
  function RemoveKeys(products: seq<RankedProduct>): (r: seq<Product>)
    ensures |r| == |products|
    ensures forall i :: 0 <= i < |r| ==>
      && r[i].title == products[i].title
      && r[i].description == products[i].description
      && r[i].price == products[i].price
      && r[i].discount == products[i].discount
  {
    seq(|products|, i requires 0 <= i < |products| => products[i].Public())
  }

  /** An output product with an `annual_price` key put back. */
  function WithAnnualPrice(p: Product, annual: Option<real>): RankedProduct {
    RankedProduct(p.title, p.description, p.price, p.discount, annual)
  }

  /** Nothing but `annual_price` is lost: putting the keys back gives the input again. */
  lemma RemoveKeysLosesOnlyAnnualPrice(products: seq<RankedProduct>)
    ensures var r := RemoveKeys(products);
      seq(|r|, i requires 0 <= i < |r| => WithAnnualPrice(r[i], products[i].annualPrice)) == products
  {
  }

  /** Removing keys works entry by entry, so it commutes with splitting the list. */
  lemma RemoveKeysDistributes(a: seq<RankedProduct>, b: seq<RankedProduct>)
    ensures RemoveKeys(a + b) == RemoveKeys(a) + RemoveKeys(b)
  {
  }
}
