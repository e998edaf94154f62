# Fire-perimeter benchmarking core, modelled in Dafny

The benchmarking system compares fire perimeters from a detection product
(the *predicted* shapes) with reference perimeters from an agency archive.
This model covers three parts of it:

- **Temporal matching** (`get_nearest`). A reference table is reduced to the rows
  whose date is nearest to a predicted timestamp. The nearest date is the value at
  the smallest key of a dictionary keyed by distance in seconds, so among equally
  near dates the one listed last wins. The choice is then gated on the day-of-month
  difference.
- **Area metrics.** Summed area over the rows of a frame, looked up by index label;
  the area confusion matrix inside one envelope region around both shapes (TP, FP, FN, TN and the total);
  ratio, accuracy, precision, recall, F1 and the symmetric-difference ratio.
- **Archive crawler.**
  - Argument processing:
    - the incident name is lower-cased, "fire" is removed, the name is stripped,
      and spaces and underscores are encoded as "%20";
    - the start URL is chosen from the coordination-centre region;
    - the year and depth are checked.
  - Listing search:
    - header anchors are dropped ("Parent Directory", "Name", "Size",
      "Last modified", "Description");
    - the keyword is matched, whole or piece by piece between "%20"s;
    - a match requires the year to appear in the page URL.
  - The recursive descent into directory links, with the year gate that applies
    once a child URL has `depth` or more slashes.

## Modelling choices

- **Shapes** are finite sets of unit cells (`Regions.Region`).
  - A shape's area is its number of cells.
  - Overlay intersection, union and difference are set operations.
  - A GeoDataFrame is a sequence of `(index label, shape)` rows.
  - The observable land around a pair of shapes is one region, the parameter `env`.
    The source boxes each row of the union overlay separately instead; see "Left out".
- **Areas and ratios are exact.** Areas are natural numbers and ratios are `real`s.
  A zero denominator is the `Err` arm of a `Result`. In Python this is a
  `ZeroDivisionError` when both areas are plain Python numbers; see "Left out" for
  the numpy case.
- **Timestamps** are reduced to what `get_nearest` reads: seconds since the epoch
  and the day of the month.
- **The archive** is a map from each fetchable URL to the anchors of its listing.
  - An unfetchable URL is absent from the map.
  - An anchor is its rendered markup (`str(link)`) and its optional `href`.
  - `str(None)` is "None".
- **The crawl's page test is a parameter.** The crawl is generic over the page test
  (`Crawler.Crawl`). The crawler proper instantiates it with `searchForKeyword` on
  the fetched listing (`Crawler.PageTest`).
- **Where the code departs from its documented intent, the code is followed:**
  - The ratio fails only when the reference area is zero. A zero predicted area
    gives `0.0`.
  - The label-based loop of `areaCalculation` falls back to `.item()`. That fallback
    fails for a frame of two or more rows whose labels do not cover `0 .. n-1`.
- **The metric methods fail as written.** In `Output_Calculation.py` the methods are
  declared in the class without `self`. They call `areaCalculation`, `truePos`,
  `trueNeg`, `areaTotal`, `precisionCalculation` and `recallCalculation` by bare name
  (lines 117, 136, 157, 172, 182, 205-206, 220-222, 235-236, 246-247, 266-267 and
  281-282), which raises `NameError`. The model follows the evident reading, in
  which each such call reaches the method of that name.
- **The crawler modules cannot be loaded as written.** The model follows their evident
  reading:
  - `FTPFuncs.py:180` and `ftpCrawler.py:27` put a non-default parameter after a
    default one.
  - `ftpCrawler.py:18-21` are assignments without a value.
  - `FTPFuncs.py` calls `searchForKeyword` and `crawler` with fewer arguments than
    they declare.
  - `ftpCrawler.py` reads the year flag and the year from module globals.

  In the model, the year flag, the year and the depth are explicit arguments.

## Model

| member | source | states |
|---|---|---|
| Nearest.GetNearest | PerimFuncs.py:54-84 | it fails with `ExcessiveDayRange` exactly when the tolerance is 8 days or more, and with `EmptyDataset` exactly when the tolerance is below that and the table is empty; it returns rows exactly when the tolerance is below 8, the table is non-empty and the nearest date is within the tolerance; otherwise, with the nearest date `res`, a day gap above the tolerance yields `None` exactly when the tolerance is 7 and fails exactly when it is not; on success the rows are non-empty, all carry one date, include every row of the table with that date, no table row is nearer, and the day gap is within the tolerance; the rows returned are exactly the table rows stamped with the nearest date, in table order, so ties go to the date listed last |
| Nearest.ClosDict | PerimFuncs.py:66-69 | the distance-keyed dictionary has a key exactly for each distance some date has, and maps it to the last date at that distance |
| Nearest.MinKeyIsMinDistance | PerimFuncs.py:71 | the smallest key of the dictionary is the smallest distance from the timestamp to any date |
| Nearest.NearestDate | PerimFuncs.py:66-71 | the chosen date is one of the dates, no date is nearer, and it sits at the last position among the nearest |
| Nearest.NearestIsLastMinimal | PerimFuncs.py:66-71 | ties on distance go to the date listed last: whenever position i is the last nearest one, the chosen date is `dates[i]` |
| Nearest.ScanNearest | PerimFuncs.py:66-71 | a single left-to-right scan in which an equally near later date replaces the best lands on the same date as the dictionary build |
| Nearest.RowsAt | PerimFuncs.py:82 | the boolean-mask filter keeps exactly the rows stamped with the date, duplicates included |
| Nearest.RowsAtConcat | PerimFuncs.py:82 | the filter keeps the original order: filtering a concatenation is concatenating the filtered parts |
| Nearest.NearestRowsFacts | PerimFuncs.py:71-84 | the rows at the nearest date are never empty, start with that date, and no table row is nearer |
| Regions.AreaCalculation | Output_Calculation.py:88-109 | an empty frame has area 0 and a single row its own area; any success equals the sum of the row areas; it fails exactly when there are two or more rows and some label in `0 .. n-1` is missing |
| Regions.SumByLabelIsSum | Output_Calculation.py:101-104 | with unique labels covering `0 .. n-1`, summing by label equals the row-order sum, whatever order the labels appear in |
| Regions.AreaAtOwnLabel | Output_Calculation.py:104 | with unique labels, looking up a row's label finds that row's area |
| Regions.DisjointSumIsUnionArea | Output_Calculation.py:88-109 | for pairwise non-overlapping rows, the summed area is the area of their union |
| Metrics.Quotient | Output_Calculation.py:211 | the quotient times the denominator is the numerator; it is non-negative, at most 1 when the numerator is at most the denominator, 1 exactly when they are equal, and 0 exactly when the numerator is 0 |
| Metrics.TruePos | Output_Calculation.py:111-118 | TP is at most either area, and TP plus the union area is the sum of the two areas |
| Metrics.FalseNeg | Output_Calculation.py:120-138 | FN is at most the reference area, and inside one covering envelope FN + TP is the reference area |
| Metrics.FalsePos | Output_Calculation.py:140-159 | FP is at most the predicted area, and inside one covering envelope FP + TP is the predicted area |
| Metrics.TrueNeg | Output_Calculation.py:161-184 | for one envelope region, TN is its area outside both shapes and at most its area |
| Metrics.AreaTotal | Output_Calculation.py:186-198 | inside one covering envelope, AREA_TOTAL is the area burned in either shape plus the area burned in neither, so it bounds both shape areas |
| Metrics.ConfusionPartition | Output_Calculation.py:111-198 | inside one covering envelope TP + FP + FN + TN equals AREA_TOTAL |
| Metrics.Ratio | Output_Calculation.py:200-211 | the summed-area ratio succeeds exactly when both area calculations succeed and the reference area is non-zero, fails with a zero division exactly when the reference area is zero, and on success the ratio is non-negative and times the reference area gives the predicted area |
| Metrics.ItemRatio | PerimFuncs.py:135-145 | the `.item()` ratio succeeds exactly for single-row frames with a non-empty reference, and times the reference area gives the predicted area |
| Metrics.RatioVersionsAgree | PerimFuncs.py:135-145 | on single-row frames the earlier `.item()` ratio and the summed-area ratio agree, error cases included |
| Metrics.Accuracy | Output_Calculation.py:213-224 | fails exactly for an empty envelope; (TN + TP) / AREA_TOTAL lies in [0, 1] inside one covering envelope and is 1 for identical shapes |
| Metrics.AgreedWithinTotal | Output_Calculation.py:213-224 | inside one covering envelope TN + TP is at most AREA_TOTAL, and equal to it when the shapes coincide |
| Metrics.Precision | Output_Calculation.py:227-238 | fails exactly for an empty predicted shape; otherwise TP over the predicted area, in [0, 1], and 1 exactly when the prediction lies inside the reference |
| Metrics.Recall | Output_Calculation.py:240-249 | fails exactly for an empty reference; otherwise TP over the reference area, in [0, 1], and 1 exactly when the reference lies inside the prediction |
| Metrics.F1Score | Output_Calculation.py:263-270 | fails exactly when either shape is empty or they share no area; otherwise equals 2·TP / (predicted area + reference area) and lies in (0, 1] |
| Metrics.F1Algebra | Output_Calculation.py:268 | with p = t/a and q = t/b, p + q vanishes exactly when t does, and otherwise 2pq/(p+q) = 2t/(a+b) |
| Metrics.HarmonicMeanOfRatios | Output_Calculation.py:268 | the harmonic-mean formula applied to t/a and t/b is 2t/(a+b) |
| Metrics.F1OfEqualPrecisionRecall | Output_Calculation.py:263-270 | when precision equals recall and TP is positive, F1 equals precision |
| Metrics.SymmDiffRatio | Output_Calculation.py:273-286 | fails exactly for an empty reference; otherwise non-negative, times the reference area gives the symmetric-difference area, and 0 exactly when the shapes are equal |
| Metrics.SymmDiffIsFalsePosPlusFalseNeg | Output_Calculation.py:273-286 | inside one covering envelope the symmetric-difference area is FP + FN |
| Metrics.SymmDiffVersionsAgree | PerimFuncs.py:199-209 | on single regions the earlier `.item()` symmetric-difference ratio and the summed one agree, error case included |
| Metrics.IdenticalShapesScorePerfectly | Output_Calculation.py:213-286 | identical non-empty shapes inside the envelope score precision, recall, F1 and accuracy 1 and symmetric-difference ratio 0 |
| Strings.ReplaceAll | FTPFuncs.py:204 | replacement introduces no character outside the string and the replacement, leaves a string without the pattern unchanged, and removes a one-character pattern absent from the replacement |
| Strings.Strip | FTPFuncs.py:210 | the result is the slice of the input left after cutting whitespace at both ends and nowhere else; it has no whitespace at either end, and a string already without edge whitespace is unchanged |
| Strings.Lower | FTPFuncs.py:200 | the result has the input's length and no upper-case letter, and each character is the input's own or, for an upper-case letter, its lower-case form |
| Strings.Split | FTPFuncs.py:372 | `str.split` gives at least one piece, the first piece is a prefix of the input, and no piece contains the separator |
| Strings.SplitPiecesOccur | FTPFuncs.py:372-383 | every piece of `keyWord.split("%20")` occurs in the keyword |
| Strings.SplitJoinRoundTrip | FTPFuncs.py:372 | joining the split pieces with the separator gives back the original string |
| Strings.JoinSplitIsReplace | FTPFuncs.py:372 | splitting on a separator and joining with another string is replacing every separator by that string |
| Strings.ContainsAt | FTPFuncs.py:359 | `sub in s` holds exactly when `sub` sits at some position of `s` |
| Strings.ContainsTransitive | FTPFuncs.py:359-383 | a substring of a substring is a substring |
| Strings.CountChar | FTPFuncs.py:492 | the count is at most the length and is zero exactly when the character is absent |
| Strings.CountCharConcat | FTPFuncs.py:487-492 | counting slashes distributes over URL concatenation |
| Keyword.RemoveWord | FTPFuncs.py:203-207 | removing "fire", and then "Fire", gives the input split at every occurrence of the word (found left to right, without overlap) and joined back with nothing in between; without the word the input is unchanged |
| Keyword.EncodeSeparators | FTPFuncs.py:213-217 | the two replacements equal the character-by-character encoding: each space and each underscore becomes "%20" and every other character is kept, in order |
| Keyword.TwoReplacesEncode | FTPFuncs.py:213-217 | replacing the spaces, then the underscores, by "%20" writes each character independently, because "%20" holds no underscore |
| Keyword.NormalizeKeyword | FTPFuncs.py:199-218 | the normalised name is the lower-cased name with every "fire" cut out, stripped, and encoded character by character (the "Fire" step never changes anything); it holds no space, underscore or upper-case letter |
| Keyword.CapitalFireStepIsDead | FTPFuncs.py:203-207 | after lower-casing and removing "fire", the "Fire" removal never finds anything to remove |
| Keyword.NormalizeFixedPoint | FTPFuncs.py:199-218 | a name already lower-case, without "fire", spaces, underscores or edge whitespace is left unchanged |
| Keyword.ProcessKeyword | ftpCrawler.py:43-71 | a name is given back exactly when one is given, and it is that name normalised |
| Keyword.StartUrl | FTPFuncs.py:232-251 | a start URL exists exactly for a region containing "unsure" or a listed region; "unsure" starts at the root; every start URL lies under the root and ends in "/"; a listed region's folder name is read back from its start URL |
| Keyword.StartUrlInjective | ftpCrawler.py:90-93 | distinct listed regions start from distinct folders |
| Keyword.CallerCrawler | FTPFuncs.py:189-266 | an invalid year fails first, then a depth below 5, then a missing start URL; it succeeds exactly when the year is valid, the depth is at least 5 and a start URL exists, and the plan carries that URL, the year, the depth and the processed name; with a valid year and depth, an unlisted region fails with `NoStartUrl` |
| Keyword.GaccYearProcessingAsWritten | FTPFuncs.py:41-52 | as written the function never succeeds: "unsure" and unlisted regions are refused, and a listed region fails on the unbound start URL |
| Keyword.GaccYearProcessing | FTPFuncs.py:41-66 | as intended, it succeeds exactly for a listed region other than "unsure" with a valid year and a depth of at least 5; the start URL extends the root by the region folder and "/" |
| Keyword.GaccYearProcessingNeverStarts | FTPFuncs.py:49-52 | for a listed region with valid year and depth, the written version fails while the intended one starts from the same URL the caller would use |
| Crawler.HeaderFree | FTPFuncs.py:338-350 | the filtered listing is no longer than the original and holds no header anchor |
| Crawler.HeaderFreeConcat | FTPFuncs.py:338-350 | filtering a listing is filtering its parts in turn, so the kept anchors stay in listing order |
| Crawler.HeaderFreeMembers | FTPFuncs.py:338-350 | an anchor survives the filter exactly when it is in the listing and is not a header |
| Crawler.FirstIndex | FTPFuncs.py:347 | `list.index`: the position holds the element and no earlier position does |
| Crawler.RemoveFirst | FTPFuncs.py:347 | `list.remove` cuts out the element at the first position holding it, leaving the rest in order |
| Crawler.RemoveFirstCount | FTPFuncs.py:347 | removal takes exactly one copy of the element out of the list |
| Crawler.RemoveFirstAfter | FTPFuncs.py:347 | removal skips a prefix that does not hold the element |
| Crawler.ExcludeHeaderAnchors | FTPFuncs.py:329-350 | removing each visited header from a copy of the listing yields exactly the order-preserving filter, duplicates included |
| Crawler.CountFound | FTPFuncs.py:378-387 | the counter never exceeds the number of pieces and reaches it exactly when every piece occurs |
| Crawler.LinkMatches | FTPFuncs.py:356-395 | a link matches exactly when the keyword occurs in its lower-cased href, or the keyword holds "%20" and all its pieces occur |
| Crawler.PiecewiseMatch | FTPFuncs.py:359-387 | for a keyword holding "%20" the whole-keyword test adds nothing: a link matches exactly when every piece occurs |
| Crawler.ScanLinks | ftpCrawler.py:217-261 | the scan finds a match exactly when the year gate passes and some link matches |
| Crawler.SearchForKeyword | FTPFuncs.py:296-399 | a match needs a non-empty listing and, with a year selected, the year in the page URL |
| Crawler.SearchForKeywordMeaning | FTPFuncs.py:326-399 | a page matches exactly when its listing is non-empty, the year gate passes and some non-header link matches the keyword |
| Crawler.HeaderFreeMatches | FTPFuncs.py:338-358 | some filtered link matches exactly when some non-header link of the listing matches |
| Crawler.ChildUrlsExact | FTPFuncs.py:476-516 | a URL is descended into exactly when it is the page URL plus the href of a filtered link that the descent rule admits |
| Crawler.ChildUrlsShape | ftpCrawler.py:357-397 | each child URL extends the page URL, ends in "/", and at `depth` or more slashes with a year selected holds the year in the appended part |
| Crawler.PrefixThroughChild | FTPFuncs.py:487 | whatever lies below a child directory lies below its page |
| Crawler.Crawl | FTPFuncs.py:402-519 | every reported URL is a fetchable page; with CrawlExact, the reports are exactly the passing pages the descent reaches |
| Crawler.CrawlSound | FTPFuncs.py:417-424 | only pages passing the page test are reported |
| Crawler.CrawlBelow | FTPFuncs.py:476-516 | every reported URL lies below the URL the crawl started from |
| Crawler.CrawlReportsStart | FTPFuncs.py:417-424 | a fetchable start page passing the test is reported, and first |
| Crawler.FollowedLinkIsChild | FTPFuncs.py:476-487 | a non-header link the descent rule admits gives a child URL |
| Crawler.CrawlComplete | FTPFuncs.py:476-516 | every page passing the test at the end of a chain of at most `fuel` admitted non-header directory links between fetchable pages is reported |
| Crawler.CrawlPath | FTPFuncs.py:476-516 | every reported URL is reached from the start along such a chain of at most `fuel` links |
| Crawler.CrawlExact | FTPFuncs.py:402-519 | a URL is reported exactly when it passes the test and is reached from the start within the fuel |
| Crawler.CrawlThroughChild | FTPFuncs.py:476-506 | whatever a followed child directory's crawl reports, the crawl of its page reports too |
| Crawler.CrawlEachMember | FTPFuncs.py:476-516 | whatever the sibling crawls report comes from the crawl of one sibling |
| Crawler.CrawlEachIncludes | FTPFuncs.py:476-516 | every report of one sibling's crawl is kept in the combined result |
| Crawler.Crawler | FTPFuncs.py:402-519 | a URL is reported exactly when it is fetchable, passes `searchForKeyword`, and is reached from the start URL through admitted links within the fuel; every report lies below the start URL |
| Crawler.CallerSearch | FTPFuncs.py:180-293 | fails exactly when the argument checks fail, with the same error; otherwise it reports exactly the pages reached from the start URL that pass `searchForKeyword` with the normalised name and the year, each lying under the archive root, holding the year, and having a non-header link matching the name |

## Left out

- IOU: `IOUCalculation` computes TP, FP and FN and then returns the constant 0. The confusion-matrix members cover the computed parts.
- Geometry simplification (`simplify_geometry`, `best_simplification`): not modelled. The recursive search calls `simplify_geometry` unqualified from inside the class, and one branch reads the misspelt name `base_toleranc`.
- `path_exists`: not modelled. It is an unfinished stub that returns `False` or raises.
- `gaccYearCrawler`: not modelled. Its only caller, `gaccYearProcessing`, never reaches it (see Findings). Its body reads `keyWord`, which is not defined in its scope.
- `intersectFinder`, the placeholder `dump_to_file` and `plot_results` methods, the scripts (`main.py`, `FTPMain.py`, `perimsVsFTP.py`, `finalPerimsVsInteragency.py`) and the input classes are outside the modelled core.
- Coordinate reference systems, polygon geometry and floating point are not modelled. Shapes are cell sets and ratios are exact reals.
- Nearest.GetNearest: does not model sub-second timestamps or `timestamp.item()` on a series of length other than one. Time is whole seconds from the epoch.
- Metrics.FalseNeg: does not model the per-row envelope of a multi-row union. The envelope is one region for the whole pair.
- Per-row envelopes: `gpd.overlay(..., how='union')` gives one row for the intersection and one for each non-empty difference, so two shapes that differ give two or three rows. `.envelope` then boxes each row on its own (`Output_Calculation.py:129, 149, 171, 192`). `trueNeg` intersects every pair of per-row negatives, and `areaTotal` adds the overlapping per-row boxes. For pred = [0,2]² and ref = [1,3]², the source gives TP = 1, FP = 3, FN = 3, TN = 0 against AREA_TOTAL = 9, so its accuracy is 1/9. The model, with the one envelope [0,3]², gives TN = 2 and accuracy 3/9. With multipart shapes the per-row boxes can also count FP or FN twice, and the source's accuracy can exceed 1. The members below are stated and proved for one covering envelope only.
- Metrics.FalsePos: FP + TP = |pred| holds for one covering envelope; the source's per-row boxes can count part of the prediction twice.
- Metrics.TrueNeg: TN is the one envelope minus both shapes; the source intersects the per-row negatives pairwise.
- Metrics.AreaTotal: AREA_TOTAL is the area of one envelope; the source adds up the overlapping per-row boxes.
- Metrics.ConfusionPartition: TP + FP + FN + TN = AREA_TOTAL holds for one covering envelope; with the source's per-row boxes it can fail (7 against 9 in the example above).
- Metrics.Accuracy: the [0, 1] range and the value hold for one covering envelope; the source's per-row boxes give 1/9 where the model gives 3/9 above, and can exceed 1.
- Metrics.AgreedWithinTotal: TN + TP <= AREA_TOTAL is proved for one covering envelope, not for the source's per-row boxes.
- Metrics.SymmDiffIsFalsePosPlusFalseNeg: FP + FN equals the symmetric-difference area for one covering envelope; the source's per-row boxes can count FP or FN twice.
- Metrics.TruePos, Metrics.FalsePos, Metrics.TrueNeg, Metrics.Accuracy, Metrics.Precision, Metrics.Recall, Metrics.F1Score: take one region per side. The source takes frames that may hold several rows, overlays them row against row, and sums the resulting rows with `areaCalculation`. The model covers that sum only through `Regions.AreaCalculation` and `Metrics.Ratio`.
- Metrics.Ratio: a zero reference area is always the error `ZeroDivision`. Python raises only when both areas are plain Python numbers, from `.item()` or from an empty frame. When either area comes out of the labelled loop, it is a `numpy.float64`, and the division gives `inf` or `nan` with a runtime warning. The same holds for the other quotients.
- Metrics.SymmDiffRatio: does not model the assertion that the symmetric difference has a single row, because shapes here are single regions.
- Strings.Lower: lower-cases ASCII letters only, as a stand-in for Python's full Unicode `str.lower`.
- Page fetching and HTML parsing (`requests`, BeautifulSoup) are not modelled. A listing is a given sequence of anchors, and timeouts, redirects and HTTP errors are the absent key of the site map.
- Printing and the desktop notification import are not modelled.
- Crawler.Crawl: recursion is bounded by a `fuel` argument. The source relies on the archive being finite. A crawl reports exactly the passing pages reached through at most `fuel` links; with too little fuel it misses those further down.
- Crawler.Crawler: returns the URLs the crawl reports, in order, as the docstrings promise. As written, `crawler` appends to a module-level `found_array` and returns `1`. Neither file binds `found_array` at module level: it is a local of `callerCrawler` in `FTPFuncs.py` and of `mainCrawler` in `ftpCrawler.py`. So the first match raises `NameError` in both files. With no match, `callerCrawler` receives `1` and `len` of it raises `TypeError`.
- Crawler.CallerSearch: takes a keyword string. With no keyword, the source's `keyWord in ...` raises `TypeError`, so that path is left out.
- Keyword.CallerCrawler: the start URL for an unlisted region is unbound, and is modelled as the error `NoStartUrl`. `FTPFuncs.py:22-23` also read the undefined names `PerimConsts` and `starting` at import time; the model uses the literal root URL of lines 234 and 245.

## Findings

| source | as written | input that shows it | evidently intended | confidence | as-written member | corrected member |
|---|---|---|---|---|---|---|
| FTPFuncs.py:52 | the line extends `starting_URL` by assigning to that name inside the function, so Python treats it as a local, and reading it before any assignment raises `UnboundLocalError` | `gaccYearProcessing("alaska", "2021", 8)`: every listed region fails before the year and depth checks | extend the module-level root URL by the region folder and "/", then check year and depth and crawl | high (not executed) | Keyword.GaccYearProcessingAsWritten | Keyword.GaccYearProcessing |

`Keyword.GaccYearProcessingNeverStarts` puts the two side by side. For a listed region with a valid year and depth, the written version fails, while the intended one starts from the same URL as `callerCrawler`.
