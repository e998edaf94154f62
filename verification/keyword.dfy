/** Argument processing of the incident-archive crawler: turning an incident
    name into the form it takes in archive URLs, choosing the start URL from a
    coordination-centre region keyword, and refusing unusable year and depth
    settings before any page is fetched.
 */
module Keyword {
  import opened Results
  import opened Strings

  const ROOT_URL: string := "https://ftp.wildfire.gov/public/incident_specific_data/"

  /** The region folders under the root, one per coordination centre. */
  const GACC_ZONES: seq<string> := [
    "alaska", "calif_n", "calif_s", "california_statewide", "eastern",
    "great_basin", "n_rockies", "pacific_nw", "rocky_mtn", "southern", "southwest"
  ]

  /** How a space is written in an archive URL. */
  const URL_SPACE: string := "%20"

  const MIN_DEPTH: int := 5

  predicate NoUpper(s: string) {
    forall c :: c in s ==> !IsUpper(c)
  }

  /** The second and third steps: drop every `word` ("fire", then "Fire",
      the latter meant for a failed lower-casing). The occurrences removed
      are those `split` finds, scanning left to right. */
  function RemoveWord(s: string, word: string): (r: string)
    requires |word| > 0
    ensures r == Join(Split(s, word), "")
    ensures !Contains(s, word) ==> r == s
    ensures forall c :: c in r ==> c in s
  {
    JoinSplitIsReplace(s, word, "");
    if Contains(s, word) then ReplaceAll(s, word, "") else s
  }

  /** How one character is written in an archive URL by the last step. */
  function EncodeChar(c: char): string {
    if c == ' ' || c == '_' then URL_SPACE else [c]
  }

  /** The last step, character by character: each space and each underscore
      becomes "%20", every other character is kept, in order. */
  function EncodeEach(s: string): string
    decreases |s|
  {
    if |s| == 0 then "" else EncodeChar(s[0]) + EncodeEach(s[1..])
  }

  /** Last step: spaces, then underscores, become "%20". */
  function EncodeSeparators(s: string): (r: string)
    ensures r == EncodeEach(s)
    ensures ' ' !in r && '_' !in r
    ensures forall c :: c in r ==> c in s || c in URL_SPACE
    ensures ' ' !in s && '_' !in s ==> r == s
  {
    ContainsChar(s, ' ');
    var spaced := if Contains(s, " ") then ReplaceAll(s, " ", URL_SPACE) else s;
    ContainsChar(spaced, '_');
    TwoReplacesEncode(s);
    if Contains(spaced, "_") then ReplaceAll(spaced, "_", URL_SPACE) else spaced
  }

  /** Replacing the spaces and then the underscores by "%20" is the
      character-by-character encoding. */
  lemma {:induction false} TwoReplacesEncode(s: string)
    ensures ReplaceAll(ReplaceAll(s, " ", URL_SPACE), "_", URL_SPACE) == EncodeEach(s)
    decreases |s|
  {
    if |s| > 0 {
      var c := s[0];
      var head := if c == ' ' then URL_SPACE else [c];
      assert ReplaceAll(s, " ", URL_SPACE) == head + ReplaceAll(s[1..], " ", URL_SPACE);
      ReplaceCharConcat(head, ReplaceAll(s[1..], " ", URL_SPACE), '_', URL_SPACE);
      ContainsChar(URL_SPACE, '_');
      assert ReplaceAll(head, "_", URL_SPACE) == EncodeChar(c);
      TwoReplacesEncode(s[1..]);
    }
  }

  /** The incident name as it is searched for: lower-cased, every "fire"
      removed, outer whitespace stripped, spaces and underscores encoded. */
  function NormalizeKeyword(raw: string): (k: string)
    ensures k == EncodeEach(Strip(Join(Split(Lower(raw), "fire"), "")))
    ensures ' ' !in k && '_' !in k
    ensures NoUpper(k)
  {
    var lowered := Lower(raw);
    LowerHasNoUpper(raw);
    CapitalFireStepIsDead(raw);
    var stripped := Strip(RemoveWord(RemoveWord(lowered, "fire"), "Fire"));
    var k := EncodeSeparators(stripped);
    assert NoUpper(k) by {
      NoUpperKept(lowered, stripped, k);
    }
    k
  }

  /** The steps after lower-casing bring in no upper-case letter. */
  lemma NoUpperKept(lowered: string, stripped: string, k: string)
    requires NoUpper(lowered)
    requires forall c :: c in stripped ==> c in lowered
    requires forall c :: c in k ==> c in stripped || c in URL_SPACE
    ensures NoUpper(k)
  {
  }

  lemma LowerHasNoUpper(s: string)
    ensures NoUpper(Lower(s))
  {
    var lowered := Lower(s);
    forall c | c in lowered ensures !IsUpper(c) {
      var i :| 0 <= i < |lowered| && lowered[i] == c;
    }
  }

  /** A name with no upper-case letter never contains "Fire". */
  lemma {:induction false} NoUpperHasNoCapitalFire(s: string)
    requires NoUpper(s)
    ensures !Contains(s, "Fire")
    decreases |s|
  {
    if |s| > 0 {
      assert s[0] in s;
      assert !IsPrefix("Fire", s);
      assert NoUpper(s[1..]) by {
        forall c | c in s[1..] ensures !IsUpper(c) {
          assert c in s;
        }
      }
      NoUpperHasNoCapitalFire(s[1..]);
    }
  }

  /** The "Fire" removal is dead: after lower-casing and the "fire"
      removal it never finds anything to remove. */
  lemma CapitalFireStepIsDead(raw: string)
    ensures RemoveWord(RemoveWord(Lower(raw), "fire"), "Fire") == RemoveWord(Lower(raw), "fire")
  {
    var lowered := Lower(raw);
    LowerHasNoUpper(raw);
    NoUpperHasNoCapitalFire(RemoveWord(lowered, "fire"));
  }

  /** A name already in searched-for form is left unchanged; with the
      postcondition of `NormalizeKeyword` this pins down its fixed points
      apart from the "fire" and whitespace conditions. */
  lemma NormalizeFixedPoint(k: string)
    requires NoUpper(k)
    requires !Contains(k, "fire")
    requires ' ' !in k && '_' !in k
    requires |k| == 0 || (!IsSpace(k[0]) && !IsSpace(k[|k| - 1]))
    ensures NormalizeKeyword(k) == k
  {
    LowerFixed(k);
    NoUpperHasNoCapitalFire(k);
    var removed := RemoveWord(RemoveWord(k, "fire"), "Fire");
    assert removed == k;
    StripFixed(k);
    EncodeFixed(k);
  }

  lemma LowerFixed(k: string)
    requires NoUpper(k)
    ensures Lower(k) == k
  {
    forall i | 0 <= i < |k| ensures Lower(k)[i] == k[i] {
      assert k[i] in k;
    }
  }

  lemma StripFixed(k: string)
    requires |k| == 0 || (!IsSpace(k[0]) && !IsSpace(k[|k| - 1]))
    ensures Strip(k) == k
  {
  }

  lemma EncodeFixed(k: string)
    requires ' ' !in k && '_' !in k
    ensures EncodeSeparators(k) == k
  {
  }

  /** `keyword` is optional; when given it is normalised. */
  function ProcessKeyword(keyword: Option<string>): (r: Option<string>)
    ensures r.Some? <==> keyword.Some?
    ensures r.Some? ==> r.value == NormalizeKeyword(keyword.value)
    ensures r.Some? ==> ' ' !in r.value && '_' !in r.value && NoUpper(r.value)
  {
    match keyword
    case None => None
    case Some(raw) => Some(NormalizeKeyword(raw))
  }

  /** The region folder a start URL points into. */
  function ZoneOfUrl(url: string): string
    requires |url| > |ROOT_URL|
  {
    url[|ROOT_URL|..|url| - 1]
  }

  /** Where the search starts: the root for a region keyword containing
      "unsure", the region folder for a listed region, nowhere otherwise. */
  function StartUrl(gacc: string): (r: Option<string>)
    ensures r.Some? <==> Contains(gacc, "unsure") || gacc in GACC_ZONES
    ensures Contains(gacc, "unsure") ==> r == Some(ROOT_URL)
    ensures r.Some? ==> IsPrefix(ROOT_URL, r.value) && EndsWith(r.value, "/")
    ensures r.Some? && !Contains(gacc, "unsure") ==>
              |r.value| > |ROOT_URL| && ZoneOfUrl(r.value) == gacc
  {
    if Contains(gacc, "unsure") then Some(ROOT_URL)
    else if gacc in GACC_ZONES then
      var url := ROOT_URL + gacc + "/";
      assert url[..|ROOT_URL|] == ROOT_URL;
      assert url[|ROOT_URL|..|url| - 1] == gacc;
      Some(url)
    else None
  }

  /** Distinct listed regions start from distinct folders. */
  lemma StartUrlInjective(a: string, b: string)
    requires a in GACC_ZONES && b in GACC_ZONES
    requires !Contains(a, "unsure") && !Contains(b, "unsure")
    requires StartUrl(a) == StartUrl(b)
    ensures a == b
  {
    assert ZoneOfUrl(StartUrl(a).value) == a;
  }

  datatype SetupError =
    | InvalidYear      // year "0" or shorter than four characters
    | DepthTooLow      // depth below MIN_DEPTH
    | NoStartUrl       // unlisted region: the start URL is never bound
    | UnsureRegion     // the year/region search refuses "unsure"
    | UnlistedRegion   // the year/region search refuses an unlisted region

  /** What a search is launched with once its arguments pass the checks. */
  datatype CrawlPlan = CrawlPlan(startUrl: string, keyword: Option<string>, year: string, depth: int)

  predicate ValidYear(year: string) {
    year != "0" && |year| >= 4
  }

  /** `callerCrawler` (and its twin `mainCrawler`) up to the call of the
      crawler. The year is checked before the depth; an unlisted region only
      prints a message, and fails when the unbound start URL is read. */
  function CallerCrawler(keyword: Option<string>, gacc: string, year: string, depth: int)
    : (r: Result<CrawlPlan, SetupError>)
    ensures !ValidYear(year) ==> r == Err(InvalidYear)
    ensures ValidYear(year) && depth < MIN_DEPTH ==> r == Err(DepthTooLow)
    ensures ValidYear(year) && depth >= MIN_DEPTH && StartUrl(gacc).None? ==> r == Err(NoStartUrl)
    ensures r.Ok? <==> ValidYear(year) && depth >= MIN_DEPTH && StartUrl(gacc).Some?
    ensures r.Ok? ==> r.value.startUrl == StartUrl(gacc).value
    ensures r.Ok? ==> r.value.year == year && |r.value.year| >= 4 && r.value.depth >= MIN_DEPTH
    ensures r.Ok? ==> r.value.keyword == ProcessKeyword(keyword)
  {
    var processed := ProcessKeyword(keyword);
    var start := StartUrl(gacc);
    if year == "0" || |year| < 4 then Err(InvalidYear)
    else if depth < MIN_DEPTH then Err(DepthTooLow)
    else if start.None? then Err(NoStartUrl)
    else Ok(CrawlPlan(start.value, processed, year, depth))
  }

  /** `gaccYearProcessing` as written: once the region checks pass, the
      statement that extends the start URL reads the function's own local
      `starting_URL` before any assignment and raises `UnboundLocalError`. */
  function GaccYearProcessingAsWritten(gacc: string, year: string, depth: int)
    : (r: Result<CrawlPlan, SetupError>)
    ensures r.Err?
    ensures Contains(gacc, "unsure") ==> r == Err(UnsureRegion)
    ensures !Contains(gacc, "unsure") && gacc !in GACC_ZONES ==> r == Err(UnlistedRegion)
    ensures !Contains(gacc, "unsure") && gacc in GACC_ZONES ==> r == Err(NoStartUrl)
  {
    if Contains(gacc, "unsure") then Err(UnsureRegion)
    else if gacc !in GACC_ZONES then Err(UnlistedRegion)
    else Err(NoStartUrl)
  }

  /** `gaccYearProcessing` as evidently intended: the root URL (a module
      global in the source) is extended by the region folder. It refuses
      "unsure" and unlisted regions, then applies the year and depth checks. */
  function GaccYearProcessing(root: string, gacc: string, year: string, depth: int)
    : (r: Result<CrawlPlan, SetupError>)
    ensures r.Ok? <==>
              !Contains(gacc, "unsure") && gacc in GACC_ZONES && ValidYear(year) && depth >= MIN_DEPTH
    ensures Contains(gacc, "unsure") ==> r == Err(UnsureRegion)
    ensures r.Ok? ==> IsPrefix(root, r.value.startUrl) && EndsWith(r.value.startUrl, "/")
    ensures r.Ok? ==> |r.value.startUrl| > |root| && r.value.startUrl[|root|..|r.value.startUrl| - 1] == gacc
    ensures r.Ok? ==> r.value.keyword.None? && r.value.year == year && r.value.depth == depth
  {
    if Contains(gacc, "unsure") then Err(UnsureRegion)
    else if gacc !in GACC_ZONES then Err(UnlistedRegion)
    else
      var url := root + gacc + "/";
      assert url[..|root|] == root;
      assert url[|root|..|url| - 1] == gacc;
      if year == "0" || |year| < 4 then Err(InvalidYear)
      else if depth < MIN_DEPTH then Err(DepthTooLow)
      else Ok(CrawlPlan(url, None, year, depth))
  }

  /** The written version never reaches the crawl, although for a listed
      region with a valid year and depth the intended one does. */
  lemma GaccYearProcessingNeverStarts(gacc: string, year: string, depth: int)
    requires gacc in GACC_ZONES && !Contains(gacc, "unsure")
    requires ValidYear(year) && depth >= MIN_DEPTH
    ensures GaccYearProcessingAsWritten(gacc, year, depth) == Err(NoStartUrl)
    ensures GaccYearProcessing(ROOT_URL, gacc, year, depth).Ok?
    ensures GaccYearProcessing(ROOT_URL, gacc, year, depth).value.startUrl == StartUrl(gacc).value
  {
  }
}
