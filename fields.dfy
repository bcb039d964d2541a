/**
 * One product container as `parse_products` sees it, and the value each
 * field of its record receives. A container's element queries
 * (`find('a', ...)`, `find('img')`, `select_one(...)`, `find(True,
 * class_=...)`) are answered by BeautifulSoup, so their answers are fields
 * of `Region`; the logic applied to those answers is modelled here.
 */
module Fields {
  import opened Wrappers
  import opened Seqs
  import opened Text
  import opened Helpers
  import opened Patterns

  /** The sentinel every field starts with. */
  const NA: string := "N/A"

  const BaseUrl: string := "https://www.flipkart.com"

  const Rupee: char := '₹'

  /** The fragments that mark user-interface text rather than a product name. */
  const UiNoise: seq<string> := ["Add to Compare", "Hot Deal", "Ad", "Plus", "Assured"]

  /** The review-count patterns, in the order they are tried. */
  const ReviewPatterns: seq<Regex> := [ParenCount, CountBefore("ratings"), CountBefore("reviews")]

  /** The `src`, `data-src` and `srcset` attributes of the first `img`; `None` when absent. */
  datatype Image = Image(src: Option<string>, dataSrc: Option<string>, srcset: Option<string>)

  /**
   * A product container. `markup` is the element itself: BeautifulSoup
   * compares and hashes elements by their markup, so two containers are the
   * same exactly when their values are equal. The other fields are what the
   * queries return: the text nodes in document order, the `href` of every
   * `a` in document order (`None` for an `a` without one), the first `img`,
   * and the text nodes of the first title, rating-badge and review-count
   * elements, if the container has one.
   */
  datatype Region = Region(
    markup: string,
    textNodes: seq<string>,
    anchorHrefs: seq<Option<string>>,
    image: Option<Image>,
    titleNode: Option<seq<string>>,
    ratingNode: Option<seq<string>>,
    reviewNode: Option<seq<string>>)

  // ----- text -----

  /** `item.get_text("|", strip=True)`. */
  function AllText(r: Region): string {
    GetText(r.textNodes, "|")
  }

  /** `all_text.split("|")`: the positional fragments the heuristics read. */
  function TextParts(r: Region): seq<string> {
    Split(AllText(r), '|')
  }

  /** `node.get_text(strip=True)` for an element found by a query, if any. */
  function NodeText(node: Option<seq<string>>): Option<string> {
    match node
    case None => None
    case Some(nodes) => Some(GetText(nodes, ""))
  }

  lemma {:induction false} StrippedPiecesWithout(nodes: seq<string>, c: char)
    requires forall k :: 0 <= k < |nodes| ==> c !in nodes[k]
    ensures forall j :: 0 <= j < |StrippedPieces(nodes)| ==> c !in StrippedPieces(nodes)[j]
    decreases |nodes|
  {
    if nodes != [] {
      StrippedPiecesWithout(nodes[1..], c);
      StripIsMiddle(nodes[0]);
      var t := Strip(nodes[0]);
      var a :| 0 <= a <= |nodes[0]| - |t| && t == nodes[0][a..a + |t|];
      forall m | 0 <= m < |t| ensures t[m] != c {
        assert t[m] == nodes[0][a + m];
      }
    }
  }

  /**
   * When no text node holds the separator `|`, the fragments are exactly
   * the stripped, non-empty text nodes; an empty container gives the one
   * fragment `""`.
   */
  lemma TextPartsAreNodes(r: Region)
    requires forall k :: 0 <= k < |r.textNodes| ==> '|' !in r.textNodes[k]
    ensures StrippedPieces(r.textNodes) == [] ==> TextParts(r) == [""]
    ensures StrippedPieces(r.textNodes) != [] ==> TextParts(r) == StrippedPieces(r.textNodes)
  {
    var ps := StrippedPieces(r.textNodes);
    if ps != [] {
      StrippedPiecesWithout(r.textNodes, '|');
      SplitJoin(ps, '|');
    }
  }

  // ----- Product Page URL -----

  /** The `href` filter `lambda x: x and '/p/' in x`. */
  predicate IsProductHref(h: Option<string>) {
    h.Some? && Contains(h.value, "/p/")
  }

  /** The `href` of the first product link, if any. */
  function ProductHref(hrefs: seq<Option<string>>): (r: Option<string>)
    ensures r.None? <==> forall k :: 0 <= k < |hrefs| ==> !IsProductHref(hrefs[k])
    ensures r.Some? ==> exists i :: 0 <= i < |hrefs| && hrefs[i] == r && IsProductHref(r)
                                  && forall k :: 0 <= k < i ==> !IsProductHref(hrefs[k])
    decreases |hrefs|
  {
    if hrefs == [] then None
    else if IsProductHref(hrefs[0]) then hrefs[0]
    else
      var r := ProductHref(hrefs[1..]);
      assert forall k :: 1 <= k < |hrefs| ==> hrefs[k] == hrefs[1..][k - 1];
      r
  }

  /**
   * Product Page URL: the first product link resolved against the site
   * root by `urljoin` (a parameter: the resolution of section 5.2 of
   * RFC 3986 is not modelled), else `N/A`.
   */
  function PageUrl(r: Region, urljoin: (string, string) -> string): string {
    match ProductHref(r.anchorHrefs)
    case None => NA
    case Some(h) => urljoin(BaseUrl, h)
  }

  // ----- Product Image URL -----

  /** Python truthiness of an attribute value: present and non-empty. */
  predicate Truthy(v: Option<string>) {
    v.Some? && v.value != ""
  }

  /** Python's `a or b`. */
  function Or(a: Option<string>, b: Option<string>): Option<string> {
    if Truthy(a) then a else b
  }

  /**
   * Product Image URL: `N/A` without an `img`; its `src` unless that is
   * missing, empty or an inline `data:image` placeholder; otherwise
   * `data-src or srcset`, which may be Python's `None`.
   */
  function ImageUrl(image: Option<Image>): Option<string> {
    match image
    case None => Some(NA)
    case Some(img) =>
      if !Truthy(img.src) || Contains(img.src.value, "data:image") then Or(img.dataSrc, img.srcset)
      else img.src
  }

  /**
   * The image URL falls back in order: a usable `src`, then a non-empty
   * `data-src`, then whatever `srcset` holds.
   */
  lemma ImageUrlCascade(img: Image)
    ensures Truthy(img.src) && !Contains(img.src.value, "data:image") ==> ImageUrl(Some(img)) == img.src
    ensures !(Truthy(img.src) && !Contains(img.src.value, "data:image")) && Truthy(img.dataSrc) ==>
      ImageUrl(Some(img)) == img.dataSrc
    ensures !(Truthy(img.src) && !Contains(img.src.value, "data:image")) && !Truthy(img.dataSrc) ==>
      ImageUrl(Some(img)) == img.srcset
  {
  }

  // ----- Current Price and MRP -----

  predicate HasRupee(p: string) {
    Rupee in p
  }

  /** `[p for p in text_parts if '₹' in p]`. */
  function Prices(parts: seq<string>): seq<string> {
    Filter(HasRupee, parts)
  }

  function CurrentPrice(parts: seq<string>): string {
    var prices := Prices(parts);
    if |prices| >= 1 then CleanPrice(prices[0]) else NA
  }

  function Mrp(parts: seq<string>): string {
    var prices := Prices(parts);
    if |prices| >= 2 then CleanPrice(prices[1]) else NA
  }

  /** A cleaned price is made of digits, so it is never the sentinel. */
  lemma CleanPriceIsNotNA(s: string)
    ensures CleanPrice(s) != NA
  {
    assert !IsDigit(NA[0]);
  }

  /** Current Price is the first `₹` fragment, cleaned. */
  lemma CurrentPriceIsFirstRupee(parts: seq<string>, i: nat)
    requires i < |parts| && HasRupee(parts[i])
    requires forall k :: 0 <= k < i ==> !HasRupee(parts[k])
    ensures CurrentPrice(parts) == CleanPrice(parts[i])
  {
    FilterFirst(HasRupee, parts, i);
  }

  /**
   * A first `₹` fragment without digits makes Current Price the empty
   * string, not `N/A`.
   */
  lemma PriceWithoutDigits(parts: seq<string>, i: nat)
    requires i < |parts| && HasRupee(parts[i])
    requires forall k :: 0 <= k < i ==> !HasRupee(parts[k])
    requires forall m :: 0 <= m < |parts[i]| ==> !IsDigit(parts[i][m])
    ensures CurrentPrice(parts) == ""
  {
    CurrentPriceIsFirstRupee(parts, i);
    CleanPriceEmpty(parts[i]);
  }

  /** MRP is the second `₹` fragment, cleaned. */
  lemma MrpIsSecondRupee(parts: seq<string>, i: nat)
    requires i < |parts| && HasRupee(parts[i])
    requires |Filter(HasRupee, parts[..i])| == 1
    ensures Mrp(parts) == CleanPrice(parts[i])
  {
    FilterAt(HasRupee, parts, i);
  }

  /**
   * The price fields stay `N/A` exactly when there are too few `₹`
   * fragments to fill them.
   */
  lemma PricesUnfilled(parts: seq<string>)
    ensures CurrentPrice(parts) == NA <==> forall k :: 0 <= k < |parts| ==> !HasRupee(parts[k])
    ensures Mrp(parts) == NA <==> |Prices(parts)| < 2
  {
    FilterEmpty(HasRupee, parts);
    var prices := Prices(parts);
    if |prices| >= 1 { CleanPriceIsNotNA(prices[0]); }
    if |prices| >= 2 { CleanPriceIsNotNA(prices[1]); }
  }

  // ----- Discount percentage -----

  /** `'off' in p.lower() or '%' in p`. */
  predicate IsDiscount(p: string) {
    Contains(Lower(p), "off") || '%' in p
  }

  function Discount(parts: seq<string>): string {
    var discounts := Filter(IsDiscount, parts);
    if discounts != [] then discounts[0] else NA
  }

  /**
   * Discount is the first fragment mentioning `off` (in any case) or `%`,
   * kept as it is; with none, `N/A`.
   */
  lemma DiscountIsFirstMatch(parts: seq<string>)
    ensures forall i :: 0 <= i < |parts| && IsDiscount(parts[i])
                        && (forall k :: 0 <= k < i ==> !IsDiscount(parts[k]))
                        ==> Discount(parts) == parts[i]
    ensures (forall k :: 0 <= k < |parts| ==> !IsDiscount(parts[k])) ==> Discount(parts) == NA
  {
    forall i | 0 <= i < |parts| && IsDiscount(parts[i]) && (forall k :: 0 <= k < i ==> !IsDiscount(parts[k]))
      ensures Discount(parts) == parts[i]
    {
      FilterFirst(IsDiscount, parts, i);
    }
    FilterEmpty(IsDiscount, parts);
  }

  // ----- Product Name -----

  /** `re.match(r'^\d\.\d$', p)`: `$` also matches before a final newline. */
  predicate BareRating(p: string) {
    && (|p| == 3 || (|p| == 4 && p[3] == '\n'))
    && IsDigit(p[0]) && p[1] == '.' && IsDigit(p[2])
  }

  /** The first filter of the name fallback. */
  predicate NonData(p: string) {
    !HasRupee(p) && !Contains(Lower(p), "off") && !BareRating(p) && |p| > 5
  }

  /** The second filter: no noise phrase occurs anywhere in the fragment. */
  predicate NoNoise(p: string) {
    forall k :: 0 <= k < |UiNoise| ==> !Contains(p, UiNoise[k])
  }

  /** A fragment that the fallback accepts as a name. */
  predicate NameCandidate(p: string) {
    NonData(p) && NoNoise(p)
  }

  /**
   * Product Name: the title element's text whenever there is a title
   * element; otherwise, when there is more than one fragment, the first
   * fragment passing both filters; otherwise `N/A`.
   */
  function Name(titleText: Option<string>, parts: seq<string>): string {
    if titleText.Some? then titleText.value
    else if |parts| > 1 then
      var cleanParts := Filter(NoNoise, Filter(NonData, parts));
      if cleanParts != [] then cleanParts[0] else NA
    else NA
  }

  /** The title element wins over the fragments, whatever its text. */
  lemma NameFromTitle(title: string, parts: seq<string>)
    ensures Name(Some(title), parts) == title
  {
  }

  /**
   * Without a title element and with more than one fragment, the name is
   * the first fragment that passes both filters, or `N/A` if none does.
   */
  lemma NameFromFragments(parts: seq<string>)
    requires |parts| > 1
    ensures forall i :: 0 <= i < |parts| && NameCandidate(parts[i])
                        && (forall k :: 0 <= k < i ==> !NameCandidate(parts[k]))
                        ==> Name(None, parts) == parts[i]
    ensures (forall k :: 0 <= k < |parts| ==> !NameCandidate(parts[k])) ==> Name(None, parts) == NA
  {
    forall i | 0 <= i < |parts| && NameCandidate(parts[i]) && (forall k :: 0 <= k < i ==> !NameCandidate(parts[k]))
      ensures Name(None, parts) == parts[i]
    {
      FilterTwiceFirst(NonData, NoNoise, parts, i);
    }
    if forall k :: 0 <= k < |parts| ==> !NameCandidate(parts[k]) {
      FilterTwiceNone(NonData, NoNoise, parts);
    }
  }

  /** With a single fragment the fallback is not consulted at all. */
  lemma NameSingleFragment(p: string)
    ensures Name(None, [p]) == NA
  {
  }

  /**
   * The bare-rating test never rejects anything the length test has not
   * already rejected: a fragment matching `^\d\.\d$` has at most four
   * characters.
   */
  lemma BareRatingIsShort(p: string)
    ensures NonData(p) <==> !HasRupee(p) && !Contains(Lower(p), "off") && |p| > 5
  {
  }

  /** The noise test matches substrings, so the phrase `Ad` rejects a name such as `Adidas Shoes`. */
  lemma NoiseRejectsAdidas()
    ensures !NoNoise("Adidas Shoes")
  {
    assert OccursAt("Adidas Shoes", "Ad", 0);
    assert UiNoise[2] == "Ad";
  }

  // ----- Ratings -----

  /**
   * Ratings: the rating badge's text; then, only while the field is still
   * `N/A`, the first `[2-5].[0-9]` in the container's text.
   */
  function Rating(badgeText: Option<string>, allText: string): string {
    var fromBadge := if badgeText.Some? then badgeText.value else NA;
    if fromBadge == NA then
      match Search(RatingPattern, allText)
      case Some(g) => g
      case None => NA
    else fromBadge
  }

  /** The badge's text wins unless it is missing or literally `N/A`. */
  lemma RatingFromBadge(badge: string, allText: string)
    requires badge != NA
    ensures Rating(Some(badge), allText) == badge
  {
  }

  /**
   * Otherwise the rating is the leftmost digit from 2 to 5, a point and a
   * digit in the container's text.
   */
  lemma RatingFromText(badgeText: Option<string>, allText: string, i: nat)
    requires badgeText.None? || badgeText == Some(NA)
    requires i + 3 <= |allText| && '2' <= allText[i] <= '5' && allText[i + 1] == '.' && '0' <= allText[i + 2] <= '9'
    requires forall k :: 0 <= k < i ==> MatchAt(RatingPattern, allText, k).None?
    ensures Rating(badgeText, allText) == allText[i..i + 3]
  {
    assert MatchAt(RatingPattern, allText, i) == Some(allText[i..i + 3]);
    var j :| 0 <= j <= |allText| && MatchAt(RatingPattern, allText, j) == Search(RatingPattern, allText)
      && forall k :: 0 <= k < j ==> MatchAt(RatingPattern, allText, k).None?;
  }

  /** Without a usable badge and without such a digit pair in the text, the rating stays `N/A`. */
  lemma RatingUnfound(badgeText: Option<string>, allText: string)
    requires badgeText.None? || badgeText == Some(NA)
    requires forall i :: 0 <= i && i + 3 <= |allText| ==>
      !('2' <= allText[i] <= '5' && allText[i + 1] == '.' && '0' <= allText[i + 2] <= '9')
    ensures Rating(badgeText, allText) == NA
  {
    forall k | 0 <= k <= |allText| ensures MatchAt(RatingPattern, allText, k).None? {
    }
  }

  // ----- Number of Reviews -----

  predicate NotComma(c: char) {
    c != ','
  }

  /** `s.replace(',', '')`. */
  function RemoveCommas(s: string): string {
    Filter(NotComma, s)
  }

  /** What a review-count pattern's group becomes: commas removed, then stripped. */
  function CountText(group: string): string {
    Strip(RemoveCommas(group))
  }

  /**
   * The first of `patterns` that matches somewhere in `allText`, its group
   * cleaned; `None` when none matches.
   */
  function FirstCount(allText: string, patterns: seq<Regex>): (r: Option<string>)
    ensures r.None? <==> forall j :: 0 <= j < |patterns| ==> Search(patterns[j], allText).None?
    ensures r.Some? ==> exists j :: 0 <= j < |patterns| && Search(patterns[j], allText).Some?
                                  && r == Some(CountText(Search(patterns[j], allText).value))
                                  && forall k :: 0 <= k < j ==> Search(patterns[k], allText).None?
    decreases |patterns|
  {
    if patterns == [] then None
    else
      match Search(patterns[0], allText)
      case Some(g) => Some(CountText(g))
      case None =>
        var r := FirstCount(allText, patterns[1..]);
        FirstCountShift(allText, patterns, r);
        r
  }

  /** A match of the remaining patterns, once the first has missed, is a match of them all. */
  lemma FirstCountShift(allText: string, patterns: seq<Regex>, r: Option<string>)
    requires patterns != [] && Search(patterns[0], allText).None?
    requires r.None? <==> forall j :: 0 <= j < |patterns| - 1 ==> Search(patterns[1..][j], allText).None?
    requires r.Some? ==> exists j :: 0 <= j < |patterns| - 1 && Search(patterns[1..][j], allText).Some?
                                    && r == Some(CountText(Search(patterns[1..][j], allText).value))
                                    && forall k :: 0 <= k < j ==> Search(patterns[1..][k], allText).None?
    ensures r.None? <==> forall j :: 0 <= j < |patterns| ==> Search(patterns[j], allText).None?
    ensures r.Some? ==> exists j :: 0 <= j < |patterns| && Search(patterns[j], allText).Some?
                                  && r == Some(CountText(Search(patterns[j], allText).value))
                                  && forall k :: 0 <= k < j ==> Search(patterns[k], allText).None?
  {
    assert forall k :: 1 <= k < |patterns| ==> patterns[k] == patterns[1..][k - 1];
    if r.Some? {
      var j :| 0 <= j < |patterns| - 1 && Search(patterns[1..][j], allText).Some?
               && r == Some(CountText(Search(patterns[1..][j], allText).value))
               && forall k :: 0 <= k < j ==> Search(patterns[1..][k], allText).None?;
      assert patterns[j + 1] == patterns[1..][j];
      forall k | 0 <= k < j + 1 ensures Search(patterns[k], allText).None? {
        if k > 0 {
          assert patterns[k] == patterns[1..][k - 1];
        }
      }
    }
  }

  /** The review-count element's fallback: its first run of digits and commas, commas removed. */
  function CountFromNode(nodeText: Option<string>): string {
    match nodeText
    case None => NA
    case Some(t) =>
      match Search(DigitCommaRun, t)
      case Some(g) => RemoveCommas(g)
      case None => NA
  }

  /**
   * Number of Reviews: the first review-count pattern that matches; then,
   * only while the field is still `N/A`, the review-count element.
   */
  function Reviews(allText: string, nodeText: Option<string>): string {
    var fromPatterns := match FirstCount(allText, ReviewPatterns)
      case Some(v) => v
      case None => NA;
    if fromPatterns == NA then CountFromNode(nodeText) else fromPatterns
  }

  /** The group of every review-count pattern starts with a digit. */
  lemma ReviewGroupStartsWithDigit(re: Regex, s: string)
    requires re in ReviewPatterns && Search(re, s).Some?
    ensures |Search(re, s).value| > 0 && IsDigit(Search(re, s).value[0])
  {
    var j :| 0 <= j <= |s| && MatchAt(re, s, j) == Search(re, s);
  }

  /** Removing commas from a digit-led string leaves it digit-led. */
  lemma RemoveCommasKeepsLead(g: string)
    requires |g| > 0 && IsDigit(g[0])
    ensures |RemoveCommas(g)| > 0 && IsDigit(RemoveCommas(g)[0])
  {
    FilterFirst(NotComma, g, 0);
  }

  /** A cleaned review count is never the sentinel. */
  lemma CountTextIsNotNA(g: string)
    requires |g| > 0 && IsDigit(g[0])
    ensures CountText(g) != NA
  {
    RemoveCommasKeepsLead(g);
    var t := RemoveCommas(g);
    StripIsMiddle(t);
    assert !IsSpace(t[0]);
    assert SkipSpace(t, 0) == 0;
    assert CountText(g)[0] == t[0];
  }

  /**
   * The review-count element is consulted exactly when none of the three
   * patterns matched; otherwise the leftmost match of the first pattern
   * that matches gives the count.
   */
  lemma ReviewsCascade(allText: string, nodeText: Option<string>)
    ensures (forall j :: 0 <= j < |ReviewPatterns| ==> Search(ReviewPatterns[j], allText).None?) ==>
      Reviews(allText, nodeText) == CountFromNode(nodeText)
    ensures !(forall j :: 0 <= j < |ReviewPatterns| ==> Search(ReviewPatterns[j], allText).None?) ==>
      Reviews(allText, nodeText) == FirstCount(allText, ReviewPatterns).value
  {
    var r := FirstCount(allText, ReviewPatterns);
    if r.Some? {
      var j :| 0 <= j < |ReviewPatterns| && Search(ReviewPatterns[j], allText).Some?
        && r == Some(CountText(Search(ReviewPatterns[j], allText).value));
      ReviewGroupStartsWithDigit(ReviewPatterns[j], allText);
      CountTextIsNotNA(Search(ReviewPatterns[j], allText).value);
    }
  }

  /** The first review-count pattern that matches decides the count. */
  lemma ReviewsFromPattern(allText: string, j: nat, nodeText: Option<string>)
    requires j < |ReviewPatterns| && Search(ReviewPatterns[j], allText).Some?
    requires forall k :: 0 <= k < j ==> Search(ReviewPatterns[k], allText).None?
    ensures Reviews(allText, nodeText) == CountText(Search(ReviewPatterns[j], allText).value)
  {
    ReviewsCascade(allText, nodeText);
    var r := FirstCount(allText, ReviewPatterns);
    var j' :| 0 <= j' < |ReviewPatterns| && Search(ReviewPatterns[j'], allText).Some?
      && r == Some(CountText(Search(ReviewPatterns[j'], allText).value))
      && forall k :: 0 <= k < j' ==> Search(ReviewPatterns[k], allText).None?;
    assert j' == j;
  }

  /**
   * A parenthesised count with a thousands separator loses the separator:
   * `(1,234)` gives `1234` (`a` = `1`, `b` = `234`).
   */
  lemma ReviewsParenthesised(a: string, b: string, nodeText: Option<string>)
    requires |a| >= 1 && forall k :: 0 <= k < |a| ==> IsDigit(a[k])
    requires |b| >= 1 && forall k :: 0 <= k < |b| ==> IsDigit(b[k])
    ensures Reviews("(" + a + "," + b + ")", nodeText) == a + b
  {
    var g := a + "," + b;
    assert forall k :: 0 <= k < |a| ==> g[k] == a[k];
    assert forall k :: |a| < k < |g| ==> g[k] == b[k - |a| - 1];
    ParenCountOf(g);
    assert "(" + g + ")" == "(" + a + "," + b + ")";
    ReviewsCommaCount("(" + a + "," + b + ")", a, b, nodeText);
  }

  /** The parenthesised pattern's group `a,b` gives the count `ab`. */
  lemma ReviewsCommaCount(s: string, a: string, b: string, nodeText: Option<string>)
    requires |a| >= 1 && forall k :: 0 <= k < |a| ==> IsDigit(a[k])
    requires |b| >= 1 && forall k :: 0 <= k < |b| ==> IsDigit(b[k])
    requires Search(ReviewPatterns[0], s) == Some(a + "," + b)
    ensures Reviews(s, nodeText) == a + b
  {
    CountTextNoComma(a, b);
    assert a + b != NA by {
      assert IsDigit((a + b)[0]);
    }
  }

  /**
   * A count followed by `Ratings`: `523 Ratings` gives `523` (`d` = `523`). The greedy
   * `[, \d]*` takes the space into the group, and the strip removes it.
   */
  lemma ReviewsBeforeRatings(d: string, nodeText: Option<string>)
    requires |d| >= 1 && forall k :: 0 <= k < |d| ==> IsDigit(d[k])
    ensures Reviews(d + " Ratings", nodeText) == d
  {
    var s := d + " Ratings";
    var g, u := d + " ", "Ratings";
    assert Search(ReviewPatterns[0], s).None? && Search(ReviewPatterns[1], s) == Some(g) by {
      assert s == g + u by {
        forall k | 0 <= k < |s| ensures s[k] == (g + u)[k] {
          if k >= |d| {
            assert s[k] == " Ratings"[k - |d|];
          }
        }
      }
      assert forall k :: 0 <= k < |d| ==> s[k] == d[k];
      NoParenCount(s);
      assert MatchesIgnoreCase(u, 0, "ratings");
      CountBeforeOf(g, u, "ratings");
    }
    ReviewsSpacedCount(s, d, nodeText);
  }

  /** The `Ratings` pattern's group `d` plus one space, with no parenthesised count before it, gives `d`. */
  lemma ReviewsSpacedCount(s: string, d: string, nodeText: Option<string>)
    requires |d| >= 1 && forall k :: 0 <= k < |d| ==> IsDigit(d[k])
    requires Search(ReviewPatterns[0], s).None? && Search(ReviewPatterns[1], s) == Some(d + " ")
    ensures Reviews(s, nodeText) == d
  {
    CountTextTrailingSpace(d);
    assert FirstCount(s, ReviewPatterns[1..]) == Some(d) by {
      assert ReviewPatterns[1..][0] == ReviewPatterns[1];
    }
    assert d != NA by {
      assert IsDigit(d[0]);
    }
  }

  /** A text without `(` has no parenthesised count. */
  lemma NoParenCount(s: string)
    requires '(' !in s
    ensures Search(ParenCount, s).None?
  {
    forall k | 0 <= k <= |s| ensures MatchAt(ParenCount, s, k).None? {
      if k < |s| {
        assert s[k] in s;
      }
    }
  }

  /** The greedy group's trailing space is stripped: `523 ` becomes `523`. */
  lemma CountTextTrailingSpace(d: string)
    requires |d| >= 1 && forall k :: 0 <= k < |d| ==> IsDigit(d[k])
    ensures CountText(d + " ") == d
  {
    var t := d + " ";
    FilterAll(NotComma, t);
    assert SkipSpace(t, 0) == 0;
    assert SkipSpaceBack(t, 0, |t| - 1) == |t| - 1;
    assert SkipSpaceBack(t, 0, |t|) == |t| - 1;
    assert t[..|t| - 1] == d;
  }

  /** A group of digits with one comma loses the comma: `1,234` becomes `1234`. */
  lemma CountTextNoComma(a: string, b: string)
    requires |a| >= 1 && |b| >= 1
    requires forall k :: 0 <= k < |a| ==> IsDigit(a[k])
    requires forall k :: 0 <= k < |b| ==> IsDigit(b[k])
    ensures CountText(a + "," + b) == a + b
  {
    assert RemoveCommas(a + ",") == a by {
      FilterAppend(NotComma, a, ",");
      FilterSingleton(NotComma, ',');
      FilterAll(NotComma, a);
    }
    assert RemoveCommas(a + "," + b) == a + b by {
      FilterAppend(NotComma, a + ",", b);
      FilterAll(NotComma, b);
    }
    StripDigits(a + b);
  }

  /** A string of digits has no whitespace to strip. */
  lemma StripDigits(t: string)
    requires |t| >= 1 && forall k :: 0 <= k < |t| ==> IsDigit(t[k])
    ensures Strip(t) == t
  {
    assert IsDigit(t[0]) && IsDigit(t[|t| - 1]);
    StripNoMargin(t);
  }
}
