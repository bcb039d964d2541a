/**
 * `parse_products`: for each container, in order and numbered from 1, a
 * record is drafted field by field, dropped when it has neither a name nor
 * a current price, given a local image when it has a usable image URL, and
 * appended to the result.
 */
module Scraper {
  import opened Wrappers
  import opened Seqs
  import opened Text
  import opened Helpers
  import opened Patterns
  import opened Locator
  import opened Fields

  /** One scraped product: the record's eleven columns. */
  datatype Record = Record(
    sNo: nat,
    date: string,
    name: string,
    mrp: string,
    currentPrice: string,
    discount: string,
    ratings: string,
    reviews: string,
    imageUrl: Option<string>,
    pageUrl: string,
    localImagePath: string)

  /**
   * What the loop consults outside the container: `urljoin`, the date
   * `datetime.now()` gives when container `idx` is drafted, and whether
   * the image fetched for container `idx` came back with status 200 and
   * was written.
   */
  datatype Env = Env(
    urljoin: (string, string) -> string,
    today: nat -> string,
    fetched: (string, nat) -> bool)

  // ----- specification -----

  /** The record drafted for container `idx`, before the integrity check. */
  function Draft(item: Region, idx: nat, env: Env): Record {
    var allText := AllText(item);
    var parts := TextParts(item);
    Record(
      idx, env.today(idx),
      Name(NodeText(item.titleNode), parts),
      Mrp(parts), CurrentPrice(parts), Discount(parts),
      Rating(NodeText(item.ratingNode), allText),
      Reviews(allText, NodeText(item.reviewNode)),
      ImageUrl(item.image), PageUrl(item, env.urljoin), NA)
  }

  /** The data integrity check fails: neither a name nor a current price. */
  predicate Unresolved(d: Record) {
    d.name == NA && d.currentPrice == NA
  }

  /** The image URL is truthy and not the sentinel, so the image is downloaded. */
  predicate WantsImage(d: Record) {
    d.imageUrl != Some(NA) && Truthy(d.imageUrl)
  }

  /** What `download_image` returns for the record's image. */
  function LocalImage(d: Record, env: Env): string
    requires d.imageUrl.Some?
  {
    DownloadImage(d.imageUrl.value, d.name, d.sNo, env.fetched(d.imageUrl.value, d.sNo))
  }

  function WithImage(d: Record, env: Env): Record {
    if WantsImage(d) then d.(localImagePath := LocalImage(d, env)) else d
  }

  /** What one checked draft contributes to the result: nothing, or its record. */
  function Admit(d: Record, env: Env): seq<Record> {
    if Unresolved(d) then [] else [WithImage(d, env)]
  }

  /** `draft` applied to each container with its number, counting from 1 as `enumerate(containers, 1)` does. */
  function DraftEach(draft: (Region, nat) -> Record, containers: seq<Region>): (ds: seq<Record>)
    ensures |ds| == |containers|
    decreases |containers|
  {
    if containers == [] then []
    else
      var n := |containers|;
      DraftEach(draft, containers[..n - 1]) + [draft(containers[n - 1], n)]
  }

  /** The drafts of `containers`. */
  function Drafts(containers: seq<Region>, env: Env): (ds: seq<Record>)
    ensures |ds| == |containers|
  {
    DraftEach((item: Region, idx: nat) => Draft(item, idx, env), containers)
  }

  /** Drafts numbered 1, 2, 3, ... in order. */
  predicate Numbered(ds: seq<Record>) {
    forall j :: 0 <= j < |ds| ==> ds[j].sNo == j + 1
  }

  /** The records kept from `drafts`, in order. */
  function Keep(drafts: seq<Record>, env: Env): seq<Record>
    decreases |drafts|
  {
    if drafts == [] then []
    else
      var n := |drafts|;
      Keep(drafts[..n - 1], env) + Admit(drafts[n - 1], env)
  }

  /** The result of `parse_products` for the containers the cascade found. */
  function Assemble(containers: seq<Region>, env: Env): seq<Record> {
    Keep(Drafts(containers, env), env)
  }

  // ----- properties of the records -----

  /** Draft `j` is `draft` applied to container `j` and the number `j + 1`. */
  lemma {:induction false} DraftEachAt(draft: (Region, nat) -> Record, containers: seq<Region>)
    ensures forall j :: 0 <= j < |containers| ==> DraftEach(draft, containers)[j] == draft(containers[j], j + 1)
    decreases |containers|
  {
    if containers != [] {
      var n := |containers|;
      var pre := containers[..n - 1];
      DraftEachAt(draft, pre);
      forall j | 0 <= j < n - 1 ensures DraftEach(draft, containers)[j] == draft(containers[j], j + 1) {
        assert pre[j] == containers[j];
      }
    }
  }

  /** Draft `j` is container `j`'s, numbered `j + 1`. */
  lemma DraftsAt(containers: seq<Region>, env: Env)
    ensures forall j :: 0 <= j < |containers| ==> Drafts(containers, env)[j] == Draft(containers[j], j + 1, env)
  {
    DraftEachAt((item: Region, idx: nat) => Draft(item, idx, env), containers);
  }

  lemma DraftsNumbered(containers: seq<Region>, env: Env)
    ensures Numbered(Drafts(containers, env))
  {
    DraftsAt(containers, env);
  }

  /**
   * A kept record passed the integrity check, keeps every drafted field,
   * and has a local image path only when its image URL was usable.
   */
  lemma AdmittedRecord(d: Record, env: Env, r: Record)
    requires Admit(d, env) == [r]
    ensures !Unresolved(r)
    ensures r == d.(localImagePath := r.localImagePath)
    ensures !WantsImage(r) ==> r.localImagePath == d.localImagePath
    ensures WantsImage(r) ==> r.localImagePath == LocalImage(r, env)
  {
  }

  /** A kept record's image path is `N/A`, `Failed` or a file under `images/`. */
  lemma LocalImagePathForms(item: Region, idx: nat, env: Env, r: Record)
    requires Admit(Draft(item, idx, env), env) == [r]
    ensures || r.localImagePath == NA
            || r.localImagePath == "Failed"
            || (r.imageUrl.Some? && r.localImagePath == ImagePath(r.imageUrl.value, r.name, idx))
  {
    var d := Draft(item, idx, env);
    assert d.localImagePath == NA && d.sNo == idx;
  }

  /**
   * At most one record per draft, in draft order: each record's number
   * names the draft it came from, and the numbers strictly increase.
   */
  lemma {:induction false} KeepNumbering(ds: seq<Record>, env: Env)
    requires Numbered(ds)
    ensures |Keep(ds, env)| <= |ds|
    ensures forall k :: 0 <= k < |Keep(ds, env)| ==>
      var r := Keep(ds, env)[k];
      1 <= r.sNo <= |ds| && Admit(ds[r.sNo - 1], env) == [r]
    ensures forall a, b :: 0 <= a < b < |Keep(ds, env)| ==> Keep(ds, env)[a].sNo < Keep(ds, env)[b].sNo
    decreases |ds|
  {
    if ds != [] {
      var n := |ds|;
      var pre := ds[..n - 1];
      KeepNumbering(pre, env);
      var out := Keep(ds, env);
      var old' := Keep(pre, env);
      assert out == old' + Admit(ds[n - 1], env);
      forall k | 0 <= k < |old'|
        ensures 1 <= old'[k].sNo <= n - 1 && ds[old'[k].sNo - 1] == pre[old'[k].sNo - 1]
      {
      }
    }
  }

  /** Some record in `out` carries the number `sNo`. */
  ghost predicate HasRecord(out: seq<Record>, sNo: nat) {
    exists k :: 0 <= k < |out| && out[k].sNo == sNo
  }

  /** Every draft that passes the integrity check has its record kept. */
  lemma {:induction false} KeepComplete(ds: seq<Record>, env: Env)
    requires Numbered(ds)
    ensures forall j :: 0 <= j < |ds| && !Unresolved(ds[j]) ==> HasRecord(Keep(ds, env), j + 1)
    decreases |ds|
  {
    if ds != [] {
      var n := |ds|;
      var pre := ds[..n - 1];
      assert Numbered(pre) by {
        forall j | 0 <= j < n - 1 ensures pre[j].sNo == j + 1 {
          assert pre[j] == ds[j];
        }
      }
      KeepComplete(pre, env);
      var out := Keep(ds, env);
      var old' := Keep(pre, env);
      assert out == old' + Admit(ds[n - 1], env);
      forall j | 0 <= j < n && !Unresolved(ds[j])
        ensures HasRecord(out, j + 1)
      {
        if j < n - 1 {
          assert ds[j] == pre[j];
          assert HasRecord(old', j + 1);
          var k :| 0 <= k < |old'| && old'[k].sNo == j + 1;
          assert out[k] == old'[k];
        } else {
          assert Admit(ds[n - 1], env) == [WithImage(ds[n - 1], env)];
          assert out[|old'|] == WithImage(ds[n - 1], env);
        }
      }
    }
  }

  /** Nothing is kept exactly when every draft fails the integrity check. */
  lemma {:induction false} KeepEmpty(ds: seq<Record>, env: Env)
    ensures Keep(ds, env) == [] <==> forall j :: 0 <= j < |ds| ==> Unresolved(ds[j])
    decreases |ds|
  {
    if ds != [] {
      var n := |ds|;
      var pre := ds[..n - 1];
      KeepEmpty(pre, env);
      assert forall j :: 0 <= j < n - 1 ==> ds[j] == pre[j];
    }
  }

  /**
   * What the result promises about each record `r`: it comes from a
   * container, passed the integrity check, is dated for its container,
   * holds exactly its container's draft apart from the local image path,
   * and has that path only when its image URL was usable.
   */
  predicate FromContainer(containers: seq<Region>, env: Env, r: Record) {
    && 1 <= r.sNo <= |containers|
    && !Unresolved(r)
    && r.date == env.today(r.sNo)
    && r == Draft(containers[r.sNo - 1], r.sNo, env).(localImagePath := r.localImagePath)
    && (WantsImage(r) ==> r.localImagePath == LocalImage(r, env))
    && (!WantsImage(r) ==> r.localImagePath == NA)
  }

  /**
   * The result of `parse_products`: at most one record per container, in
   * container order with strictly increasing numbers, each record coming
   * from the container its number names.
   */
  lemma AssembleRecords(containers: seq<Region>, env: Env)
    ensures |Assemble(containers, env)| <= |containers|
    ensures forall a, b :: 0 <= a < b < |Assemble(containers, env)| ==>
      Assemble(containers, env)[a].sNo < Assemble(containers, env)[b].sNo
    ensures forall k :: 0 <= k < |Assemble(containers, env)| ==> FromContainer(containers, env, Assemble(containers, env)[k])
  {
    var ds := Drafts(containers, env);
    DraftsAt(containers, env);
    DraftsNumbered(containers, env);
    KeepNumbering(ds, env);
    var out := Assemble(containers, env);
    forall k | 0 <= k < |out| ensures FromContainer(containers, env, out[k]) {
      var r := out[k];
      var d := ds[r.sNo - 1];
      AdmittedRecord(d, env, r);
      assert d == Draft(containers[r.sNo - 1], r.sNo, env);
      assert d.localImagePath == NA && d.date == env.today(r.sNo);
    }
  }

  /** Every container that passes the integrity check has its record in the result. */
  lemma AssembleComplete(containers: seq<Region>, env: Env)
    ensures forall j :: 0 <= j < |containers| && !Unresolved(Draft(containers[j], j + 1, env)) ==>
      HasRecord(Assemble(containers, env), j + 1)
  {
    DraftsAt(containers, env);
    DraftsNumbered(containers, env);
    KeepComplete(Drafts(containers, env), env);
  }

  /** The result is empty exactly when no container passes the integrity check. */
  lemma AssembleEmpty(containers: seq<Region>, env: Env)
    ensures Assemble(containers, env) == [] <==>
      forall j :: 0 <= j < |containers| ==> Unresolved(Draft(containers[j], j + 1, env))
  {
    DraftsAt(containers, env);
    KeepEmpty(Drafts(containers, env), env);
  }

  /** One more container appends what its draft contributes. */
  lemma AssembleSnoc(containers: seq<Region>, env: Env)
    requires containers != []
    ensures Assemble(containers, env) ==
      Assemble(containers[..|containers| - 1], env) + Admit(Draft(containers[|containers| - 1], |containers|, env), env)
  {
    var n := |containers|;
    var ds := Drafts(containers, env);
    assert ds == Drafts(containers[..n - 1], env) + [Draft(containers[n - 1], n, env)];
    assert ds[..n - 1] == Drafts(containers[..n - 1], env);
  }

  // ----- the imperative extraction -----

  /**
   * The `for pattern in reviews_patterns` loop: the first pattern with a
   * match in `allText` gives the count and ends the loop.
   */
  method MatchReviewPatterns(allText: string) returns (count: Option<string>)
    ensures count == FirstCount(allText, ReviewPatterns)
  {
    count := None;
    var i := 0;
    while i < |ReviewPatterns|
      invariant 0 <= i <= |ReviewPatterns|
      invariant FirstCount(allText, ReviewPatterns) == FirstCount(allText, ReviewPatterns[i..])
      decreases |ReviewPatterns| - i
    {
      var reviewsMatch := Search(ReviewPatterns[i], allText);
      if reviewsMatch.Some? {
        count := Some(CountText(reviewsMatch.value));
        return;
      }
      assert ReviewPatterns[i..][1..] == ReviewPatterns[i + 1..];
      i := i + 1;
    }
  }

  /**
   * The body of the loop up to the integrity check: every field starts as
   * `N/A`, and each numbered step overwrites a field only when its source
   * has a value.
   */
  method ExtractRecord(item: Region, idx: nat, env: Env) returns (data: Record)
    ensures data == Draft(item, idx, env)
  {
    data := Record(idx, env.today(idx), NA, NA, NA, NA, NA, NA, Some(NA), NA, NA);
    data := SetPageUrl(item, env, data);
    data := SetImageUrl(item, data);
    var allText := GetText(item.textNodes, "|");
    var textParts := Split(allText, '|');
    data := SetPrices(textParts, data);
    data := SetDiscount(textParts, data);
    data := SetName(item, textParts, data);
    data := SetRatings(item, allText, data);
    data := SetReviews(item, allText, data);
  }

  /** Step 1: the first product link, resolved against the site root. */
  method SetPageUrl(item: Region, env: Env, data: Record) returns (data': Record)
    requires data.pageUrl == NA
    ensures data' == data.(pageUrl := PageUrl(item, env.urljoin))
  {
    data' := data;
    var linkNode := ProductHref(item.anchorHrefs);
    if linkNode.Some? {
      data' := data'.(pageUrl := env.urljoin(BaseUrl, linkNode.value));
    }
  }

  /** Step 2: the image's `src`, or its lazy-loading attributes. */
  method SetImageUrl(item: Region, data: Record) returns (data': Record)
    requires data.imageUrl == Some(NA)
    ensures data' == data.(imageUrl := ImageUrl(item.image))
  {
    data' := data;
    if item.image.Some? {
      var imgNode := item.image.value;
      data' := data'.(imageUrl := imgNode.src);
      if !Truthy(data'.imageUrl) || Contains(data'.imageUrl.value, "data:image") {
        data' := data'.(imageUrl := Or(imgNode.dataSrc, imgNode.srcset));
      }
    }
  }

  /** Step 3, prices: the first two `₹` fragments. */
  method SetPrices(textParts: seq<string>, data: Record) returns (data': Record)
    requires data.currentPrice == NA && data.mrp == NA
    ensures data' == data.(currentPrice := CurrentPrice(textParts), mrp := Mrp(textParts))
  {
    data' := data;
    var prices := Filter(HasRupee, textParts);
    if |prices| >= 1 {
      data' := data'.(currentPrice := CleanPrice(prices[0]));
    }
    if |prices| >= 2 {
      data' := data'.(mrp := CleanPrice(prices[1]));
    }
  }

  /** Step 3, discount: the first fragment mentioning `off` or `%`. */
  method SetDiscount(textParts: seq<string>, data: Record) returns (data': Record)
    requires data.discount == NA
    ensures data' == data.(discount := Discount(textParts))
  {
    data' := data;
    var discounts := Filter(IsDiscount, textParts);
    if discounts != [] {
      data' := data'.(discount := discounts[0]);
    }
  }

  /** Step 3, name: the title element, else the fragment fallback. */
  method SetName(item: Region, textParts: seq<string>, data: Record) returns (data': Record)
    requires data.name == NA
    ensures data' == data.(name := Name(NodeText(item.titleNode), textParts))
  {
    data' := data;
    if item.titleNode.Some? {
      data' := data'.(name := GetText(item.titleNode.value, ""));
    } else if |textParts| > 1 {
      var nonDataParts := Filter(NonData, textParts);
      var cleanParts := Filter(NoNoise, nonDataParts);
      if cleanParts != [] {
        data' := data'.(name := cleanParts[0]);
      }
    }
  }

  /** Step 4, strategies A and B: the rating badge, else a rating in the text. */
  method SetRatings(item: Region, allText: string, data: Record) returns (data': Record)
    requires data.ratings == NA
    ensures data' == data.(ratings := Rating(NodeText(item.ratingNode), allText))
  {
    data' := data;
    if item.ratingNode.Some? {
      data' := data'.(ratings := GetText(item.ratingNode.value, ""));
    }
    if data'.ratings == NA {
      var ratingMatch := Search(RatingPattern, allText);
      if ratingMatch.Some? {
        data' := data'.(ratings := ratingMatch.value);
      }
    }
  }

  /** Step 4, strategy C: the review-count patterns, else the review-count element. */
  method SetReviews(item: Region, allText: string, data: Record) returns (data': Record)
    requires data.reviews == NA
    ensures data' == data.(reviews := Reviews(allText, NodeText(item.reviewNode)))
  {
    data' := data;
    var count := MatchReviewPatterns(allText);
    if count.Some? {
      data' := data'.(reviews := count.value);
    }
    if data'.reviews == NA && item.reviewNode.Some? {
      var revText := GetText(item.reviewNode.value, "");
      var revMatch := Search(DigitCommaRun, revText);
      if revMatch.Some? {
        data' := data'.(reviews := RemoveCommas(revMatch.value));
      }
    }
  }

  /**
   * `parse_products` after the document is parsed: the container cascade,
   * then one record per container that passes the integrity check, with
   * its image downloaded when its image URL is usable.
   */
  method ParseProducts(dataIdTier: seq<Region>, classTier: seq<Region>, linkParents: seq<Option<Region>>, env: Env)
    returns (products: seq<Record>)
    ensures dataIdTier != [] ==> products == Assemble(dataIdTier, env)
    ensures dataIdTier == [] && classTier != [] ==> products == Assemble(classTier, env)
    ensures dataIdTier == [] && classTier == [] ==> products == Assemble(DistinctParents(linkParents), env)
  {
    var containers := LocateContainers(dataIdTier, classTier, linkParents);
    products := ParseContainers(containers, env);
  }

  /** The `for idx, item in enumerate(containers, 1)` loop. */
  method ParseContainers(containers: seq<Region>, env: Env) returns (products: seq<Record>)
    ensures products == Assemble(containers, env)
  {
    products := [];
    for idx := 1 to |containers| + 1
      invariant products == Assemble(containers[..idx - 1], env)
    {
      var item := containers[idx - 1];
      var kept := ProcessContainer(item, idx, env);
      AssembleSnoc(containers[..idx], env);
      assert containers[..idx][..idx - 1] == containers[..idx - 1] && containers[..idx][idx - 1] == item;
      products := products + kept;
    }
    assert containers[..|containers|] == containers;
  }

  /**
   * One pass of the loop body for container `idx`: the record is drafted,
   * skipped when the integrity check fails, and otherwise given its local
   * image when its image URL is usable and appended.
   */
  method ProcessContainer(item: Region, idx: nat, env: Env) returns (kept: seq<Record>)
    ensures kept == Admit(Draft(item, idx, env), env)
  {
    var data := ExtractRecord(item, idx, env);
    if data.name == NA && data.currentPrice == NA {
      return [];
    }
    if data.imageUrl != Some(NA) && Truthy(data.imageUrl) {
      var fetched := env.fetched(data.imageUrl.value, idx);
      data := data.(localImagePath := DownloadImage(data.imageUrl.value, data.name, idx, fetched));
    }
    kept := [data];
  }

  /** When every draft passes the integrity check, every draft is kept, in order. */
  lemma {:induction false} KeepAll(ds: seq<Record>, env: Env)
    requires forall j :: 0 <= j < |ds| ==> !Unresolved(ds[j])
    ensures |Keep(ds, env)| == |ds|
    ensures forall k :: 0 <= k < |ds| ==> Keep(ds, env)[k] == WithImage(ds[k], env)
    decreases |ds|
  {
    if ds != [] {
      var n := |ds|;
      KeepAll(ds[..n - 1], env);
    }
  }

  /** A container whose title element has text other than `N/A` passes the integrity check, named by that text. */
  lemma TitledDraft(item: Region, idx: nat, env: Env)
    requires NodeText(item.titleNode).Some? && NodeText(item.titleNode).value != NA
    ensures !Unresolved(Draft(item, idx, env))
    ensures Draft(item, idx, env).sNo == idx
    ensures Draft(item, idx, env).name == NodeText(item.titleNode).value
  {
    NameFromTitle(NodeText(item.titleNode).value, TextParts(item));
  }

  /** Checked records keep their number and name. */
  lemma WithImageKeepsFields(d: Record, env: Env)
    ensures WithImage(d, env).sNo == d.sNo && WithImage(d, env).name == d.name
  {
  }

  /**
   * When every container has a title element whose text is not `N/A`, no
   * container is dropped: record `k` is container `k`'s, numbered `k + 1`
   * and named by its title.
   */
  lemma AssembleTitled(containers: seq<Region>, env: Env)
    requires forall j :: 0 <= j < |containers| ==>
      NodeText(containers[j].titleNode).Some? && NodeText(containers[j].titleNode).value != NA
    ensures |Assemble(containers, env)| == |containers|
    ensures forall k :: 0 <= k < |containers| ==>
      Assemble(containers, env)[k].sNo == k + 1
      && Assemble(containers, env)[k].name == NodeText(containers[k].titleNode).value
    ensures forall k :: 0 <= k < |containers| ==>
      Assemble(containers, env)[k] == WithImage(Draft(containers[k], k + 1, env), env)
  {
    var ds := Drafts(containers, env);
    DraftsAt(containers, env);
    forall j | 0 <= j < |ds| ensures !Unresolved(ds[j]) {
      TitledDraft(containers[j], j + 1, env);
    }
    KeepAll(ds, env);
    var out := Keep(ds, env);
    forall k | 0 <= k < |containers|
      ensures out[k].sNo == k + 1 && out[k].name == NodeText(containers[k].titleNode).value
    {
      TitledDraft(containers[k], k + 1, env);
      WithImageKeepsFields(ds[k], env);
    }
  }

  // ----- scenarios -----

  /**
   * A listing card tagged with a `data-id`: one product link, a title
   * element, the price `₹999` and the discount `20% off`; the title's text
   * is also the card's first text node.
   */
  function ListingCard(id: string, title: string): Region {
    Region("<div data-id=\"" + id + "\">", [title, "₹999", "20% off"], [Some("/p/itm")], None,
           Some([title]), None, None)
  }

  /**
   * A title such as `Wireless Mouse`: not the sentinel, no whitespace at
   * either end, and no `|`, `₹`, `f`, `F` or `%`, so that it is one
   * fragment that is neither a price nor a discount.
   */
  predicate PlainTitle(t: string) {
    && t != NA && |t| > 0 && !IsSpace(t[0]) && !IsSpace(t[|t| - 1])
    && '|' !in t && Rupee !in t && 'f' !in t && 'F' !in t && '%' !in t
  }

  lemma CleanPriceNineNineNine()
    ensures CleanPrice("₹999") == "999"
  {
    assert "₹999" == "₹" + "999";
    CleanPriceConcat("₹", "999");
    CleanPriceChar('₹');
    CleanPriceOfDigits("999");
  }

  /** The card's fragments are its three text nodes. */
  lemma ListingCardParts(id: string, title: string)
    requires PlainTitle(title)
    ensures TextParts(ListingCard(id, title)) == [title, "₹999", "20% off"]
  {
    var nodes := ListingCard(id, title).textNodes;
    StripNoMargin(nodes[0]);
    StripNoMargin(nodes[1]);
    StripNoMargin(nodes[2]);
    StrippedPiecesKeeps(nodes);
    TextPartsAreNodes(ListingCard(id, title));
  }

  /** A fragment without the letter `f` in either case never mentions `off`. */
  lemma NoOffWithoutF(p: string)
    requires 'f' !in p && 'F' !in p
    ensures !Contains(Lower(p), "off")
  {
    LowerLacks(p, 'f');
    AbsentCharNotContained(Lower(p), "off", 'f');
  }

  /** The card is priced from its one `₹` fragment and has no MRP. */
  lemma ListingCardPrices(parts: seq<string>, title: string)
    requires PlainTitle(title) && parts == [title, "₹999", "20% off"]
    ensures CurrentPrice(parts) == "999"
    ensures Mrp(parts) == NA
  {
    assert !HasRupee(parts[0]) && HasRupee(parts[1]) && !HasRupee(parts[2]);
    CurrentPriceIsFirstRupee(parts, 1);
    CleanPriceNineNineNine();
    assert Prices(parts) == [parts[1]] by {
      FilterSplitAt(HasRupee, parts, 1);
      assert parts[..1] == [parts[0]] && parts[2..] == [parts[2]];
      FilterSingleton(HasRupee, parts[0]);
      FilterSingleton(HasRupee, parts[2]);
    }
  }

  /** The card's discount is its `20% off` fragment. */
  lemma ListingCardDiscount(parts: seq<string>, title: string)
    requires PlainTitle(title) && parts == [title, "₹999", "20% off"]
    ensures Discount(parts) == "20% off"
  {
    NoOffWithoutF(parts[0]);
    NoOffWithoutF(parts[1]);
    assert parts[2][2] == '%';
    PercentIsDiscount(parts[2]);
    assert !IsDiscount(parts[0]) && !IsDiscount(parts[1]);
    FilterFirst(IsDiscount, parts, 2);
  }

  /** A fragment holding `%` is a discount, whatever else it says. */
  lemma PercentIsDiscount(p: string)
    requires '%' in p
    ensures IsDiscount(p)
  {
  }

  /** A one-node title element has that node's text. */
  lemma ListingTitle(title: string)
    requires PlainTitle(title)
    ensures NodeText(Some([title])) == Some(title)
  {
    StripNoMargin(title);
    assert StrippedPieces([title]) == [title];
  }

  /** The card's one link is a product link, resolved against the site root. */
  lemma ListingCardPageUrl(id: string, title: string, urljoin: (string, string) -> string)
    ensures PageUrl(ListingCard(id, title), urljoin) == urljoin(BaseUrl, "/p/itm")
  {
    var h := "/p/itm";
    assert OccursAt(h, "/p/", 0) by {
      assert h[0..3] == "/p/";
    }
    assert IsProductHref(Some(h));
  }

  /**
   * What the listing card's record holds: its title as the name, the
   * price `999` with no MRP, the discount `20% off`, its product page, and
   * no local image.
   */
  predicate ListingRecord(r: Record, title: string, env: Env) {
    && r.name == title
    && r.currentPrice == "999" && r.mrp == NA && r.discount == "20% off"
    && r.pageUrl == env.urljoin(BaseUrl, "/p/itm") && r.localImagePath == NA
  }

  /** The card's checked draft is its record, numbered `idx`. */
  lemma ListingCardDraft(id: string, title: string, idx: nat, env: Env)
    requires PlainTitle(title)
    ensures var r := WithImage(Draft(ListingCard(id, title), idx, env), env);
      r.sNo == idx && ListingRecord(r, title, env)
  {
    var c := ListingCard(id, title);
    ListingTitle(title);
    ListingCardParts(id, title);
    ListingCardPrices(TextParts(c), title);
    ListingCardDiscount(TextParts(c), title);
    ListingCardPageUrl(id, title, env.urljoin);
    NameFromTitle(title, TextParts(c));
  }

  /** Three cards with the same plain title give three records, numbered 1 to 3. */
  lemma ThreeCards(env: Env, a: string, b: string, c: string, title: string)
    requires PlainTitle(title)
    ensures var out := Assemble([ListingCard(a, title), ListingCard(b, title), ListingCard(c, title)], env);
      && |out| == 3
      && forall k :: 0 <= k < 3 ==> out[k].sNo == k + 1 && ListingRecord(out[k], title, env)
  {
    var ids := [a, b, c];
    var cs := [ListingCard(a, title), ListingCard(b, title), ListingCard(c, title)];
    ListingTitle(title);
    assert forall j :: 0 <= j < 3 ==> cs[j] == ListingCard(ids[j], title) && cs[j].titleNode == Some([title]);
    AssembleTitled(cs, env);
    var out := Assemble(cs, env);
    forall k | 0 <= k < 3 ensures ListingRecord(out[k], title, env) {
      ListingCardDraft(ids[k], title, k + 1, env);
    }
  }

  /**
   * Three cards titled `Wireless Mouse` give three records, numbered 1 to
   * 3, each named `Wireless Mouse`, priced `999` with no MRP, with the
   * discount `20% off`, its product page, and no local image.
   */
  lemma ThreeListingCards(env: Env, a: string, b: string, c: string)
    ensures var t := "Wireless Mouse";
      var out := Assemble([ListingCard(a, t), ListingCard(b, t), ListingCard(c, t)], env);
      && |out| == 3
      && forall k :: 0 <= k < 3 ==> out[k].sNo == k + 1 && ListingRecord(out[k], t, env)
  {
    ThreeCards(env, a, b, c, "Wireless Mouse");
  }

  /** A card with no title, no price, no link and no image. */
  function PlainCard(id: string, texts: seq<string>): Region {
    Region("<div data-id=\"" + id + "\">", texts, [], None, None, None, None)
  }

  /**
   * A card with no title and no price whose text is the single fragment
   * `Laptop` fails the integrity check: the name fallback needs more than
   * one fragment.
   */
  lemma LoneLaptopUnresolved(id: string)
    ensures Name(NodeText(PlainCard(id, ["Laptop"]).titleNode), TextParts(PlainCard(id, ["Laptop"]))) == NA
    ensures CurrentPrice(TextParts(PlainCard(id, ["Laptop"]))) == NA
  {
    var c := PlainCard(id, ["Laptop"]);
    StripNoMargin("Laptop");
    assert StrippedPieces(c.textNodes) == ["Laptop"];
    TextPartsAreNodes(c);
    NameSingleFragment("Laptop");
    PricesUnfilled(["Laptop"]);
  }

  /** `Laptop` followed by any plain fragment: the fragments are the two text nodes. */
  lemma LaptopAndFragmentParts(id: string, other: string)
    requires PlainTitle(other)
    ensures TextParts(PlainCard(id, ["Laptop", other])) == ["Laptop", other]
  {
    var c := PlainCard(id, ["Laptop", other]);
    StripNoMargin(c.textNodes[0]);
    StripNoMargin(c.textNodes[1]);
    StrippedPiecesKeeps(c.textNodes);
    TextPartsAreNodes(c);
  }

  /** Such a card's draft is named `Laptop`, has no price and no image to fetch. */
  lemma LaptopAndFragmentDraft(id: string, other: string, idx: nat, env: Env)
    requires PlainTitle(other)
    ensures var d := Draft(PlainCard(id, ["Laptop", other]), idx, env);
      && d.sNo == idx && d.name == "Laptop" && d.currentPrice == NA
      && !Unresolved(d) && !WantsImage(d)
  {
    var c := PlainCard(id, ["Laptop", other]);
    LaptopAndFragmentParts(id, other);
    LaptopFirstNamed(other);
    LaptopFragmentUnpriced(other);
  }

  /** With a second fragment `Deal`, the `Laptop` card is named `Laptop`. */
  lemma LaptopWithSecondFragmentNamed(id: string)
    ensures Name(NodeText(PlainCard(id, ["Laptop", "Deal"]).titleNode),
                 TextParts(PlainCard(id, ["Laptop", "Deal"]))) == "Laptop"
  {
    LaptopAndFragmentParts(id, "Deal");
    LaptopFirstNamed("Deal");
  }

  /** Neither `Laptop` nor a fragment without `₹` is a price. */
  lemma LaptopFragmentUnpriced(other: string)
    requires Rupee !in other
    ensures CurrentPrice(["Laptop", other]) == NA
  {
    var parts := ["Laptop", other];
    assert !HasRupee(parts[0]) && !HasRupee(parts[1]);
    PricesUnfilled(parts);
  }

  /** Without a title, `Laptop` ahead of any other fragment is the name. */
  lemma LaptopFirstNamed(other: string)
    ensures Name(None, ["Laptop", other]) == "Laptop"
  {
    var parts := ["Laptop", other];
    LaptopIsNameCandidate(parts[0]);
    FilterTwiceFirst(NonData, NoNoise, parts, 0);
  }

  /**
   * With a second fragment the card passes the integrity check on its
   * name alone: it is kept as the page's one record, numbered 1, named
   * `Laptop`, with no current price.
   */
  lemma LaptopAndFragmentKept(id: string, other: string, env: Env)
    requires PlainTitle(other)
    ensures var c := PlainCard(id, ["Laptop", other]);
      && Assemble([c], env) == [Draft(c, 1, env)]
      && Assemble([c], env)[0].sNo == 1
      && Assemble([c], env)[0].name == "Laptop"
      && Assemble([c], env)[0].currentPrice == NA
  {
    var c := PlainCard(id, ["Laptop", other]);
    var d := Draft(c, 1, env);
    LaptopAndFragmentDraft(id, other, 1, env);
    DraftsAt([c], env);
    assert Drafts([c], env) == [d];
    assert Keep([d], env) == Keep([d][..0], env) + Admit(d, env);
  }

  /** The instance with the fragments `Laptop` and `Deal`. */
  lemma LaptopWithSecondFragmentKept(id: string, env: Env)
    ensures var c := PlainCard(id, ["Laptop", "Deal"]);
      && Assemble([c], env) == [Draft(c, 1, env)]
      && Assemble([c], env)[0].sNo == 1
      && Assemble([c], env)[0].name == "Laptop"
      && Assemble([c], env)[0].currentPrice == NA
  {
    LaptopAndFragmentKept(id, "Deal", env);
  }

  /** `Laptop` passes both filters of the name fallback. */
  lemma LaptopIsNameCandidate(p: string)
    requires p == "Laptop"
    ensures NameCandidate(p)
  {
    NoOffWithoutF(p);
    assert !HasRupee(p) && |p| == 6;
    AbsentCharNotContained(p, UiNoise[0], 'A');
    AbsentCharNotContained(p, UiNoise[1], 'H');
    AbsentCharNotContained(p, UiNoise[2], 'A');
    AbsentCharNotContained(p, UiNoise[3], 'u');
    AbsentCharNotContained(p, UiNoise[4], 'A');
  }

  /** A container whose draft fails the integrity check contributes nothing. */
  lemma UnresolvedDropped(item: Region, env: Env)
    requires Name(NodeText(item.titleNode), TextParts(item)) == NA
    requires CurrentPrice(TextParts(item)) == NA
    ensures Assemble([item], env) == []
  {
    DraftsAt([item], env);
    KeepEmpty(Drafts([item], env), env);
  }
}
