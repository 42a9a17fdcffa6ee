# Scrape command: product extraction and ranking, in Dafny

This project models the pure logic of the `scrape` command of a small PHP
CodeIgniter application. The command turns the product nodes of a pricing page
into a ranked product list. It works in four steps:

1. **Structure check and field assembly.** It checks that the page has a
   container. Then product N takes the Nth title node, the Nth `package-name`
   node (the description) and the Nth `package-price` node. Matching is by
   position only.
2. **Price text conversion.** A price node's first `span` gives the price.
   If the node holds a `p`, the plan is annual: the first paragraph gives the
   discount, and the annual cost is the price. Otherwise the plan is monthly:
   the discount is 0 and the annual cost is twelve times the price.
3. **Ranking.** `usort` with the `descendingSort` comparator orders the
   products by annual cost, dearest first. Equal costs keep document order.
   With two or more products, one without a price node stops the command
   with an error.
4. **Key removal.** The internal `annual_price` key is dropped from each
   product.

A page is abstracted to what the XPath queries return (`Listings.Page`):

- the number of matching containers;
- the title texts;
- the description texts;
- one `PriceNode` per price element, holding its span texts and paragraph texts.

Modules, one per concern:

- `results.dfy` (`Results`): `Option` and `Result`.
- `price_text.dfy` (`PriceText`): `extractPrice`. It has two parts:
  `StripAll`, which is `str_replace` with an empty replacement, and
  `ParseLeading`, which is `floatval` on an unsigned decimal prefix. It also
  has the partner `FormatAmount` and its round-trip lemmas.
- `listings.dfy` (`Listings`): the data model, the monthly/annual rule
  (`PlanOf`), positional assembly (`Assemble`) and `RemoveKeys`.
- `ranking.dfy` (`Ranking`): the comparator and a stable insertion sort.
  There is a functional `SortDesc` and a loop version, `SortByAnnualCost`.
  A uniqueness lemma shows that every stable non-increasing reordering is the
  same sequence, so the model agrees with any stable `usort`.
- `scrape.dfy` (`ScrapeCommand`): `ParseContent` as written. Its three passes
  fill a growing array by index, then it sorts and removes keys. It is proved
  equal to the positional reference `ScrapeProducts`. This module also holds
  the end-to-end lemmas.

Modelling decisions:

- **Unequal node counts.** These are modelled, not excluded. PHP fills a
  sparse array by index, so an entry can lack keys. Every product field is an
  `Option`. The product count is the largest of the three node counts. Each
  pass counts up from 0, so the array's insertion order is index order.
- **Products without a price node.** Such a product has no `annual_price`
  key. With two or more products, `usort` hands every entry to the
  comparator, and its read of the missing key raises PHP's "Undefined array
  key" warning. The command is a CodeIgniter `BaseCommand`, and CodeIgniter's
  error handler turns that warning into an `ErrorException`. `run` catches it
  and prints its message instead of a list. The model returns
  `Err(UndefinedAnnualPrice)` (`ScrapeCommand.MissingCostIff`). A lone
  product is never compared, so it is output without price keys.
- **The sort key.** Whenever the command sorts, every compared entry has an
  annual cost, so the key is `annualPrice.GetOr(0.0)` and its 0 is never
  compared. Under PHP's default error handler the read of a missing key
  would yield `null` instead. PHP compares `null` with a number by
  converting both to booleans, which for the non-negative costs here is
  exactly a comparison with 0. `Ranking.NullComparesAsZero` proves this
  against a model of PHP's loose comparison.
- **Price node without a `span`.** `item(0)` is then `null`, and passing it
  to `extractPrice(DOMElement $element)` raises a `TypeError`. A `TypeError`
  is not an `Exception`, so `run`'s `catch` does not catch it. The model
  returns `Err(MissingPriceSpan(i))` for the first such node.
- **Numbers.** Numbers are exact `real`s. `price * 12` is exact.
- **`floatval`.** The model reads a leading run of digits. An optional `.`
  and a second run of digits may follow. `".5"` is accepted, as PHP accepts
  it. Text without such a prefix gives 0.
- **A product with no price node is not an assembly error.** Its price keys
  stay unset; only the sort can fail on it.
- **Non-numeric price text reads as 0.** No parse error exists.

## Model

| member | source | states |
|---|---|---|
| PriceText.StripAll | app/Commands/Scrape.php:121 | removing `"Save "` or `"Â£"` never lengthens the text and only removes characters that were there (multiset inclusion) |
| PriceText.StripAllUnchangedIff | app/Commands/Scrape.php:121 | `str_replace` leaves the text unchanged exactly when the search string does not occur in it |
| PriceText.StripAllLeading | app/Commands/Scrape.php:121 | a leading occurrence is removed and scanning resumes after it |
| PriceText.StripAllFirst | app/Commands/Scrape.php:121 | at the first occurrence of the search string, the text before it is kept, the occurrence is dropped and scanning resumes behind it; with the two lemmas above this fixes the result for every text |
| PriceText.ExampleTrailingPound | app/Commands/Scrape.php:121 | a pound sign behind the number is removed too: `"19.99Â£"` becomes `"19.99"` |
| PriceText.ParseLeading | app/Commands/Scrape.php:121 | `floatval` subset: the integral part of the result is the value of the leading digit run, and text not starting with a digit or `.` reads as 0 |
| PriceText.ParseFormattedAmount | app/Commands/Scrape.php:121 | reading a formatted amount followed by non-digit text gives that amount back (round trip with `FormatAmount`) |
| PriceText.ParseWholeNumber | app/Commands/Scrape.php:121 | a digit run followed by neither a digit nor `.` reads as the run's value, leading zeros included |
| PriceText.ParseDecimalNumber | app/Commands/Scrape.php:121 | digits, `.`, digits, then a non-digit reads as the whole part plus the second run over the matching power of ten |
| PriceText.ExtractPrice | app/Commands/Scrape.php:118-123 | `extractPrice` yields a non-negative number |
| PriceText.ExtractPoundPrice | app/Commands/Scrape.php:121 | `"Â£" + amount` reads as the amount, for every pounds-and-pence amount |
| PriceText.ExtractSavePrice | app/Commands/Scrape.php:121 | `"Save Â£" + amount` reads as the amount: both strippings happen before conversion |
| PriceText.ExtractPriceWithoutDigits | app/Commands/Scrape.php:121 | text without a single digit reads as 0, whatever else it holds |
| PriceText.ExamplePoundPrice | app/Commands/Scrape.php:121 | `"Â£19.99"` reads as 19.99 |
| PriceText.ExampleSavePrice | app/Commands/Scrape.php:121 | `"Save Â£5.00"` reads as 5.00 |
| PriceText.ExampleNoLeadingNumber | app/Commands/Scrape.php:121 | a lone `"£"` is not stripped, so `"£0"` has no leading number and reads as 0 |
| PriceText.ExamplePoundZero | app/Commands/Scrape.php:121 | the price span `"Â£0"` reads as 0 |
| Listings.PlanOf | app/Commands/Scrape.php:92-106 | the price is `extractPrice` of the first span; price, discount and annual cost are non-negative and the annual cost is never below the price |
| Listings.FirstSpanless | app/Commands/Scrape.php:90-93 | finds the first price node without a span, or reports that every node has one |
| Listings.Assemble | app/Commands/Scrape.php:63-108 | no container gives the structure error; on success there is one entry per index any pass wrote |
| Listings.AssembleFailsIff | app/Commands/Scrape.php:71-93 | assembly fails exactly when no container exists or some price node lacks a span |
| Listings.PositionalAlignment | app/Commands/Scrape.php:78-93 | product i carries the ith title, ith description and the price of the ith price node exactly when those nodes exist |
| Listings.MonthlyPlanRule | app/Commands/Scrape.php:101-106 | a price node without a paragraph gives discount 0 and annual cost twelve times the price |
| Listings.AnnualPlanRule | app/Commands/Scrape.php:95-100 | a price node with a paragraph gives the first paragraph's value as discount and the price itself as annual cost |
| Listings.UnpricedProduct | app/Commands/Scrape.php:90-108 | a product past the last price node has no price, discount or annual cost key |
| Listings.AssembledCostsNonNegative | app/Commands/Scrape.php:92-106 | every annual cost the assembly sets is non-negative, the case in which a missing cost compares like 0 |
| Listings.RemoveKeys | app/Commands/Scrape.php:134-142 | same count and order; title, description, price and discount of every entry are kept |
| Listings.RemoveKeysLosesOnlyAnnualPrice | app/Commands/Scrape.php:134-141 | putting each `annual_price` back recovers the input exactly, so nothing else was lost |
| Listings.RemoveKeysDistributes | app/Commands/Scrape.php:136-138 | key removal works entry by entry, so it commutes with concatenation |
| Ranking.DescendingSort | app/Commands/Scrape.php:125-132 | returns 0 exactly on equal annual costs, 1 exactly when the first is cheaper, -1 exactly when it is dearer |
| Ranking.LooseDescendingSort | app/Commands/Scrape.php:129-130 | `descendingSort` on the raw, possibly missing keys under PHP's loose `==` and `<` returns -1, 0 or 1; `NullComparesAsZero` ties it to `DescendingSort` |
| Ranking.AnnualKey | app/Commands/Scrape.php:129-130 | the cost the comparator reads is the `annual_price` value when set, and never negative for non-negative costs |
| Ranking.NullComparesAsZero | app/Commands/Scrape.php:129-130 | for non-negative costs, PHP's loose `==` and `<` on the raw keys, where a missing key is null, give the same comparator result as reading a missing cost as 0 |
| Ranking.ComparatorIsConsistent | app/Commands/Scrape.php:125-131 | the comparator is antisymmetric, and its "not after" relation is total and transitive |
| Ranking.NonIncreasingIsComparatorOrder | app/Commands/Scrape.php:125-131 | annual cost non-increasing along a list is the same as every pair being in comparator order |
| Ranking.Insert | app/Commands/Scrape.php:111 | inserting adds exactly one entry and keeps all others (multiset) |
| Ranking.SortDesc | app/Commands/Scrape.php:111 | the sort returns a permutation of its input (multiset equality); ordering and stability are in `SortDescCorrect` |
| Ranking.InsertKeepsOrder | app/Commands/Scrape.php:111 | inserting into a non-increasing list keeps it non-increasing |
| Ranking.InsertIsStable | app/Commands/Scrape.php:111 | the inserted entry lands behind every entry of equal cost |
| Ranking.SortDescCorrect | app/Commands/Scrape.php:111 | the sort yields a permutation, non-increasing in annual cost, in which equal-cost entries keep document order |
| Ranking.StableSortUnique | app/Commands/Scrape.php:111 | two stable non-increasing reorderings of the same entries are equal, so any stable `usort` gives the model's order |
| Ranking.SortByAnnualCost | app/Commands/Scrape.php:110-111 | the `usort` loop returns a permutation, non-increasing in annual cost and stable on ties |
| ScrapeCommand.ScrapeProducts | app/Commands/Scrape.php:63-130 | no partial list: an error of the structure check or of the price pass is the whole result, a failing sort gives only the missing-key error, and a list holds one product per index |
| ScrapeCommand.Put | app/Commands/Scrape.php:79-85 | writing index i of the array sets that slot, extends the array by at most one and changes no other slot |
| ScrapeCommand.TitlePass | app/Commands/Scrape.php:78-81 | after the title loop, slot i holds exactly the ith title |
| ScrapeCommand.DescriptionPass | app/Commands/Scrape.php:84-86 | after the description loop, slot i also holds the ith description, appending slots past the titles |
| ScrapeCommand.PriceEntry | app/Commands/Scrape.php:92-106 | the loop body's if/else writes the same price, discount and annual cost as the monthly/annual rule |
| ScrapeCommand.PricePass | app/Commands/Scrape.php:90-108 | the price loop yields the positional assembly, or stops at the first price node without a span |
| ScrapeCommand.ParseContent | app/Commands/Scrape.php:63-116 | `parseContent` as written equals the positional reference: structure check, assembly, stable sort, key removal |
| ScrapeCommand.NoContainerNoProducts | app/Commands/Scrape.php:71-74 | with no container the result is the structure error and no product list |
| ScrapeCommand.MissingCostIff | app/Commands/Scrape.php:90-111 | the sort reads a missing `annual_price` exactly when there are two products or more and fewer price nodes than products |
| ScrapeCommand.ScrapeRanksAssembly | app/Commands/Scrape.php:110-114 | once assembled, the command succeeds exactly when there are fewer than two products or one price node per product; its output is then the assembled list, reordered stably by non-increasing annual cost, with the annual costs removed, and otherwise the error is the missing-key one |
| ScrapeCommand.WellFormedPageGivesCompleteProducts | app/Commands/Scrape.php:76-108 | with equal node counts and a span in every price node, there is one product per title node and each has all four keys |
| ScrapeCommand.MonthlyAndAnnualExample | app/Commands/Scrape.php:63-116 | "Â£10.00" monthly (annual cost 120) is output before "Â£100.00" yearly with "Save Â£20.00" (annual cost 100) |
| ScrapeCommand.UnpricedSecondProductFails | app/Commands/Scrape.php:90-111 | two titles and one price node: the command ends with the missing-key error |
| ScrapeCommand.LoneUnpricedProduct | app/Commands/Scrape.php:76-116 | one title and no price node: the product is output with no price, discount or description |

## Left out

- `curlRequest` (HTTP fetch and the status threshold `> 308`): network I/O.
- `run`: argument check, `libxml_use_internal_errors`, `DOMDocument::loadHTML`,
  `json_encode` and `CLI::print`. This is I/O and library glue. The caught
  exception's message is not modelled; the model returns a typed error.
- The XPath queries and `getElementsByTagName`: HTML parsing and querying are
  foreign library calls. A page is given by their results.
- Float semantics of `floatval` and `* 12`: the model uses exact reals.
- Exotic `floatval` inputs: signs, exponents, leading whitespace, hexadecimal,
  `INF` and `NAN` are not read. For example, `"1e3"` reads as 1 here.
- The int/float distinction of the monthly discount `0`: PHP's
  `json_encode` prints it as `0`, not `0.0`. The model has one numeric type.
- Character encoding: `"Â£"` is taken as a literal two-character string.
- PriceText.StripAll: its own contract only bounds the result (no longer
  than the input, no new characters). What it removes is stated by
  `StripAllUnchangedIff`, `StripAllLeading` and `StripAllFirst`.
- PriceText.ParseLeading: its own contract states the integral part and that
  text without a leading number reads as 0. The exact value is stated by
  `ParseWholeNumber` and `ParseDecimalNumber`.
- PriceText.ExtractPrice: its own contract states only non-negativity. Its
  behaviour is stated by the lemmas `ExtractPoundPrice`, `ExtractSavePrice`
  and `ExtractPriceWithoutDigits`.
- CodeIgniter's error handler is not part of this model. The model assumes
  it turns the comparator's "Undefined array key" warning into an
  exception, as CodeIgniter 4 does for reported warnings. The exception's
  message is not modelled.
- The PHP version: the model assumes PHP 8.0 or later. Earlier versions do
  not promise a stable sort, and they word the missing-key warning as
  "Undefined index".
