# Flipkart listing scraper: a Dafny model of its extraction engine

The scraper turns one Flipkart category listing page into product records:
S.No, Date, Product Name, MRP, Current Price, Discount percentage, Ratings,
Number of Reviews, Product Image URL, Product Page URL and Local Image Path.
This project models the heart of that program in Dafny and proves what it
does:

- the three helpers: `clean_price`, `sanitize_filename`, and the extension
  and path rule of `download_image`;
- the container cascade of `parse_products`: `data-id` elements, then the
  fixed class selectors, then the de-duplicated `div` parents of product
  links;
- the per-container field extraction, with its first-match-wins cascades
  over the `|`-joined text fragments and its hand-written regular
  expressions;
- the integrity check, the image download and the numbering of the
  resulting records.

Modules, one file each:

- `wrappers.dfy`: `Option`.
- `seqs.dfy`: list comprehensions with a condition (`Filter`) and where
  their first and second elements come from.
- `text.dfy`: the Python string operations used.
  - `str.strip` and `str.isspace`.
  - `str.split` on one character, and `join`.
  - `sub in s`, and `lower` on ASCII.
  - BeautifulSoup's `get_text(sep, strip=True)` over a list of text nodes.
- `helpers.dfy`: `clean_price`, `sanitize_filename`, the image extension,
  the image file path, and what `download_image` returns.
- `patterns.dfy`: the five regular expressions as scanners, and
  `re.search` as the leftmost match.
  - The two review-count scanners and the scanner for `[\d,]+` are
    proved to match exactly what their patterns match.
  - The scanners for `[, \d]*` are proved to capture the greedy group.
  - The rating pattern `[2-5]\.[0-9]` has a fixed width and is written out
    directly as a test on three characters.
- `locator.dfy`: the container cascade and the `seen_parents` loop.
  - The loop is proved to give the one sequence that skips missing
    parents, holds no parent twice, holds every parent found, and keeps
    first-seen order.
- `fields.dfy`: a container as a value (`Region`) and the value each field
  receives, with a lemma per cascade.
- `scraper.dfy`: the record, and the imperative extraction.
  - `ExtractRecord` starts every field at `N/A` and overwrites it step
    by step.
  - `MatchReviewPatterns` is the `for`/`break` loop over the review
    patterns.
  - `ParseContainers` is the `enumerate` loop that appends to `products`.
  - `ParseProducts` is the cascade followed by that loop.
  - Every method is proved equal to a specification function (`Draft`,
    `FirstCount`, `Assemble`), and the lemmas about those functions state
    what the result promises.

What the program consults outside the container is passed in as `Env`:

- `urljoin`;
- the date `datetime.now()` reports while container `idx` is processed;
- whether fetching the image for container `idx` succeeded, meaning the
  response had status 200 and the file was written.

Behaviour of the code that the model keeps:

- The name fallback runs only when there is more than one fragment, so a
  container whose whole text is `Laptop` gets no name and, having no price
  either, is dropped (`Scraper.LoneLaptopUnresolved`). With a second
  fragment the same container is named `Laptop` and kept
  (`Scraper.LaptopWithSecondFragmentKept`).
- The name fallback takes the first fragment that passes both filters
  (`clean_parts[0]`), although the comment above it speaks of the longest
  one. The model follows the code.
- S.No is the 1-based position of the container among all containers, so
  the numbers of the kept records have gaps wherever a container was
  dropped (`Scraper.AssembleRecords`).
- The image is downloaded only when the image URL is truthy and not `N/A`.
  `src`, `data-src` and `srcset` can all be absent, so the URL can be
  Python's `None` (`Option` here), and then no download happens.
- The title element's text is used even when it is empty.
- A rating badge whose text is empty is kept. The text search runs only
  when the badge is missing or its text is literally `N/A`.

## Model

| member | source | states |
|---|---|---|
| Helpers.CleanPrice | flipkart/scraper.py:24-29 | the result consists of digits only and is never longer than the input |
| Helpers.CleanPriceKeepsDigits | flipkart/scraper.py:24-29 | every digit of the input appears in the result, in input order, after exactly the digits that precede it |
| Helpers.CleanPriceConcat | flipkart/scraper.py:24-29 | cleaning a concatenation is the concatenation of the cleaned parts |
| Helpers.CleanPriceOfDigits | flipkart/scraper.py:24-29 | a string of digits is returned unchanged |
| Helpers.CleanPriceIdempotent | flipkart/scraper.py:24-29 | cleaning twice equals cleaning once |
| Helpers.CleanPriceEmpty | flipkart/scraper.py:26-29 | the result is empty exactly when the input holds no digit, in particular for the empty input |
| Helpers.CleanPriceExample | flipkart/scraper.py:24-29 | `₹1,299` cleans to `1299` |
| Helpers.SanitizedIsSafe | flipkart/scraper.py:31-33 | a sanitised name holds none of the nine forbidden characters, has at most 50 characters and no whitespace at either end |
| Helpers.SanitizeSafeName | flipkart/scraper.py:31-33 | a name that already has those three properties is left unchanged |
| Helpers.SanitizeIdempotent | flipkart/scraper.py:31-33 | sanitising twice equals sanitising once |
| Helpers.ImageExtension | flipkart/scraper.py:46-47 | the extension always has one to four characters and holds no `?` |
| Helpers.ExtensionOf | flipkart/scraper.py:46-47 | for a URL whose last `.` is followed by `e` and then an optional `?` query, the extension is `e` when it has one to four characters and `jpg` otherwise |
| Helpers.ExtensionWithoutDot | flipkart/scraper.py:46-47 | for a URL without `.`, the candidate is the whole URL up to its first `?`, with the same length rule |
| Helpers.ImagePath | flipkart/scraper.py:49-50 | the saved file's path starts with `images/` and ends with `.` followed by the image extension |
| Helpers.DownloadImage | flipkart/scraper.py:35-57 | an empty URL gives `N/A`; a failed fetch gives `Failed`; a successful one gives the image path, which is neither sentinel |
| Text.StripIsMiddle | flipkart/scraper.py:33 | `strip` removes exactly a whitespace prefix and a whitespace suffix |
| Text.StripIdempotent | flipkart/scraper.py:33 | stripping twice equals stripping once |
| Text.JoinSplit | flipkart/scraper.py:122-123 | joining the pieces of a split with the separator restores the text |
| Text.SplitJoin | flipkart/scraper.py:122-123 | splitting a join of separator-free pieces gives the pieces back |
| Text.Contains | flipkart/scraper.py:148 | `sub in s` holds exactly when `sub` occurs at some index of `s` |
| Text.AbsentCharNotContained | flipkart/scraper.py:148 | a text lacking one of the characters of `sub` does not contain `sub` |
| Text.LowerLacks | flipkart/scraper.py:134 | lower-casing brings in no letter the text lacks in both cases |
| Patterns.Search | flipkart/scraper.py:160 | `re.search` yields nothing exactly when the pattern matches at no index, and otherwise the group of the leftmost match |
| Patterns.ParenCountSound | flipkart/scraper.py:167 | the scanner for `\((\d[, \d]*)\)` matches at an index exactly when the pattern does, with the same group |
| Patterns.CountBeforeSound | flipkart/scraper.py:168-172 | the scanner for `(\d[, \d]*)\s*Ratings` and `(\d[, \d]*)\s*Reviews` under `re.IGNORECASE` matches exactly when the pattern does, and its group is the longest any match can capture, as greedy matching gives |
| Patterns.ParenCountOf | flipkart/scraper.py:167 | in `(g)`, where `g` starts with a digit and holds only digits, commas and spaces, the parenthesised pattern captures `g` |
| Patterns.CountBeforeOf | flipkart/scraper.py:168-169 | in `g` followed by a text that starts with the pattern's word (`Ratings` or `Reviews`) in any case, that pattern captures `g` |
| Patterns.DigitCommaRunSound | flipkart/scraper.py:182 | `[\d,]+` matches at an index exactly when a digit or comma stands there, and it captures the maximal run of them |
| Locator.LinkParentTier | flipkart/scraper.py:83-89 | the `seen_parents` loop builds the de-duplicated link-parent tier |
| Locator.DistinctParentsIsLinkParentTier | flipkart/scraper.py:83-89 | that tier holds no parent twice, holds exactly the parents found, and lists them in first-seen order |
| Locator.LinkParentTierUnique | flipkart/scraper.py:83-89 | only one sequence has those three properties |
| Locator.NoParentsNoContainers | flipkart/scraper.py:85-88 | links without `div` parents contribute no container |
| Locator.LocateContainers | flipkart/scraper.py:75-89 | the `data-id` tier whenever non-empty, else the class tier whenever non-empty, else the link-parent tier |
| Fields.TextPartsAreNodes | flipkart/scraper.py:122-123 | when no text node holds `\|`, the fragments are the stripped non-empty text nodes, or the single fragment `""` when there are none |
| Fields.ProductHref | flipkart/scraper.py:110 | the product link is absent exactly when no `href` contains `/p/`, and otherwise is the first that does |
| Fields.ImageUrlCascade | flipkart/scraper.py:115-119 | the image URL is a usable `src`, else a non-empty `data-src`, else whatever `srcset` holds |
| Fields.CurrentPriceIsFirstRupee | flipkart/scraper.py:127-129 | Current Price is the first fragment holding `₹`, cleaned |
| Fields.MrpIsSecondRupee | flipkart/scraper.py:127-131 | MRP is the second fragment holding `₹`, cleaned |
| Fields.PricesUnfilled | flipkart/scraper.py:127-131 | Current Price stays `N/A` exactly when no fragment holds `₹`, and MRP exactly when fewer than two do |
| Fields.PriceWithoutDigits | flipkart/scraper.py:127-129 | a first `₹` fragment without digits makes Current Price `""`, not `N/A` |
| Fields.CleanPriceIsNotNA | flipkart/scraper.py:129 | a cleaned price is never the `N/A` sentinel |
| Fields.DiscountIsFirstMatch | flipkart/scraper.py:134-136 | Discount is the first raw fragment whose lower case contains `off` or that contains `%`, and `N/A` when there is none |
| Fields.NameFromTitle | flipkart/scraper.py:140-142 | a title element's text is the name, whatever the fragments hold |
| Fields.NameFromFragments | flipkart/scraper.py:143-150 | without a title and with more than one fragment, the name is the first fragment passing both filters, or `N/A` when none does |
| Fields.NameSingleFragment | flipkart/scraper.py:143 | without a title and with a single fragment, the name stays `N/A` |
| Fields.BareRatingIsShort | flipkart/scraper.py:145 | the first filter keeps exactly the fragments without `₹`, without `off` in any case and longer than five characters; the bare-rating test adds nothing |
| Fields.NoiseRejectsAdidas | flipkart/scraper.py:147-148 | the noise test matches substrings, so `Adidas Shoes` is rejected because of `Ad` |
| Fields.RatingFromBadge | flipkart/scraper.py:154-156 | a rating badge's text other than `N/A` is the rating |
| Fields.RatingFromText | flipkart/scraper.py:158-162 | without a usable badge, the rating is the leftmost digit 2 to 5, point, digit in the container's text |
| Fields.RatingUnfound | flipkart/scraper.py:158-162 | without a usable badge and without such a digit pair, the rating stays `N/A` |
| Fields.FirstCount | flipkart/scraper.py:166-175 | the review patterns are tried in order: nothing when none matches, otherwise the cleaned group of the first that matches |
| Fields.ReviewGroupStartsWithDigit | flipkart/scraper.py:166-170 | every review pattern's group starts with a digit |
| Fields.CountTextIsNotNA | flipkart/scraper.py:174 | a cleaned review group is never `N/A`, so a pattern match always settles the count |
| Fields.ReviewsCascade | flipkart/scraper.py:171-184 | the review-count element is consulted exactly when none of the three patterns matches; otherwise the first match gives the count |
| Fields.ReviewsFromPattern | flipkart/scraper.py:171-175 | when pattern `j` is the first to match, the count is its group with commas removed, stripped |
| Fields.ReviewsParenthesised | flipkart/scraper.py:166-174 | a text `(a,b)` with digit runs `a` and `b` has the count `a` followed by `b`, so `(1,234)` gives `1234` |
| Fields.ReviewsBeforeRatings | flipkart/scraper.py:166-174 | a text `d Ratings` with a digit run `d` has the count `d`, so `523 Ratings` gives `523` |
| Scraper.MatchReviewPatterns | flipkart/scraper.py:171-175 | the `for`/`break` loop returns the first pattern's cleaned match, or nothing |
| Scraper.SetPageUrl | flipkart/scraper.py:109-112 | step 1 sets only Product Page URL, to its specified value |
| Scraper.SetImageUrl | flipkart/scraper.py:114-119 | step 2 sets only Product Image URL, to its specified value |
| Scraper.SetPrices | flipkart/scraper.py:126-131 | the price step sets only Current Price and MRP, to their specified values |
| Scraper.SetDiscount | flipkart/scraper.py:133-136 | the discount step sets only Discount percentage, to its specified value |
| Scraper.SetName | flipkart/scraper.py:138-150 | the name step sets only Product Name, to its specified value |
| Scraper.SetRatings | flipkart/scraper.py:152-162 | strategies A and B set only Ratings, to its specified value |
| Scraper.SetReviews | flipkart/scraper.py:164-184 | strategy C and its fallback set only Number of Reviews, to its specified value |
| Scraper.ExtractRecord | flipkart/scraper.py:95-184 | the record filled field by field from `N/A` is exactly the container's draft |
| Scraper.ProcessContainer | flipkart/scraper.py:186-194 | one pass of the loop body appends nothing when the integrity check fails, and otherwise the draft with its image downloaded when its URL is usable |
| Scraper.ParseContainers | flipkart/scraper.py:93-194 | the `enumerate` loop produces exactly the specified records of the containers |
| Scraper.ParseProducts | flipkart/scraper.py:74-194 | the result is the records of whichever tier the cascade chose |
| Scraper.DraftsAt | flipkart/scraper.py:93-96 | draft `j` is container `j`'s, numbered `j + 1` |
| Scraper.AdmittedRecord | flipkart/scraper.py:186-194 | a kept record passed the integrity check, keeps every drafted field, and changes its local image path only by the download |
| Scraper.LocalImagePathForms | flipkart/scraper.py:190-192 | a kept record's local image path is `N/A`, `Failed` or its image file under `images/` |
| Scraper.KeepNumbering | flipkart/scraper.py:93-194 | at most one record per draft, each coming from the draft its number names, with strictly increasing numbers |
| Scraper.KeepComplete | flipkart/scraper.py:186-194 | every draft that passes the integrity check has its record kept |
| Scraper.KeepEmpty | flipkart/scraper.py:186-188 | nothing is kept exactly when every draft fails the integrity check |
| Scraper.AssembleRecords | flipkart/scraper.py:93-194 | the output is no longer than the container list; numbers strictly increase; each record comes from the container its number names, is dated for it, passed the integrity check, and has a local image path only when its image URL was truthy and not `N/A` |
| Scraper.AssembleComplete | flipkart/scraper.py:186-194 | every container that passes the integrity check has its record in the output |
| Scraper.AssembleEmpty | flipkart/scraper.py:186-188 | the output is empty exactly when no container passes the integrity check |
| Scraper.AssembleSnoc | flipkart/scraper.py:93-194 | the output is append-only: one more container appends what its draft contributes |
| Scraper.KeepAll | flipkart/scraper.py:186-194 | when every draft passes the check, every draft is kept in order |
| Scraper.TitledDraft | flipkart/scraper.py:140-142 | a container with a title whose text is not `N/A` passes the integrity check and is named by its title |
| Scraper.AssembleTitled | flipkart/scraper.py:93-194 | when every container has such a title, record `k` is container `k`'s draft, numbered `k + 1`, named by its title and with its image step applied |
| Scraper.ListingCardPrices | flipkart/scraper.py:126-131 | a card whose fragments are a plain title, `₹999` and `20% off` costs `999` and has no MRP |
| Scraper.ListingCardDiscount | flipkart/scraper.py:133-136 | the same card's discount is `20% off` |
| Scraper.ListingCardPageUrl | flipkart/scraper.py:109-112 | its `/p/` link gives the page URL joined onto `https://www.flipkart.com` |
| Scraper.ListingCardDraft | flipkart/scraper.py:95-194 | the card's checked record carries its number, its title as name, Current Price `999`, no MRP, Discount `20% off`, the joined page URL and no local image |
| Scraper.ThreeCards | flipkart/scraper.py:93-194 | three such cards give exactly three records, numbered 1 to 3, each with those field values |
| Scraper.ThreeListingCards | flipkart/scraper.py:93-194 | three `Wireless Mouse` cards priced `₹999` with `20% off` and a `/p/` link give three records numbered 1 to 3, named `Wireless Mouse`, costing `999`, without MRP, with discount `20% off` |
| Scraper.LoneLaptopUnresolved | flipkart/scraper.py:143-150 | an untitled, unpriced card whose text is the single fragment `Laptop` gets neither a name nor a price |
| Scraper.LaptopWithSecondFragmentNamed | flipkart/scraper.py:143-150 | the same card with the second fragment `Deal` is named `Laptop` |
| Scraper.LaptopAndFragmentDraft | flipkart/scraper.py:126-150 | an untitled card with `Laptop` and any plain second fragment drafts as named `Laptop`, without Current Price, passing the integrity check and with no image to fetch |
| Scraper.LaptopAndFragmentKept | flipkart/scraper.py:93-194 | such a card alone on the page is kept as the one record, numbered 1, named `Laptop`, without Current Price |
| Scraper.LaptopWithSecondFragmentKept | flipkart/scraper.py:93-194 | the card with fragments `Laptop` and `Deal` is kept as the page's one record, numbered 1 and named `Laptop` |
| Scraper.UnresolvedDropped | flipkart/scraper.py:186-188 | a container without name and price contributes no record |

## Left out

- Fetching the page (`fetch_page`), the HTTP request and file write inside
  `download_image`, and `os.makedirs`: network and file-system I/O. Whether
  an image fetch succeeded is a parameter (`Env.fetched`).
- Parsing the HTML and answering the element queries (`find_all`,
  `select`, `find`, `select_one`, `find_parent`): BeautifulSoup does this.
  Their answers are inputs, as the three tiers and the fields of `Region`.
- `urljoin`: a parameter. The reference resolution of section 5.2 of
  RFC 3986 is not modelled.
- `datetime.now()`: a parameter giving the date seen while each container
  is processed.
- `main`, the pandas DataFrame and the CSV file: serialisation through a
  library.
- `time.sleep` and `print`: pacing and logging, with no effect on the
  records.
- The `except` around each container (flipkart/scraper.py:199-201): an
  exception raised by `urljoin` (a `ValueError` on a malformed link) or by
  `os.makedirs` (lines 40-41, outside the `try` of `download_image`) skips
  the container, so it contributes no record. The model does not represent
  these exceptions: `urljoin` is a total parameter, and a failed download
  gives `Failed`.
- The handler inside `download_image`: it is covered by the `fetched`
  parameter.
- Unicode digits: `\d` and `[0-9]` are modelled as ASCII digits. Python's
  `\d` also matches other decimal digits.
- Case folding: `lower()` is modelled for ASCII letters only.
  `re.IGNORECASE` is modelled as ASCII case plus the four non-ASCII letters
  that fold onto `i`, `s` and `k`.
- Helpers.ImagePath: joins with `/`, as `os.path.join` does on POSIX
  systems. The Windows separator is not modelled.
