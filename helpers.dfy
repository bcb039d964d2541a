/**
 * The scraper's small string helpers: `clean_price`, `sanitize_filename`,
 * the extension rule of `download_image`, and the file path and sentinel
 * `download_image` returns.
 */
module Helpers {
  import opened Wrappers
  import opened Seqs
  import opened Text

  // ----- clean_price -----

  /**
   * `clean_price`: an empty string stays empty; otherwise every character
   * that is not a digit is deleted (`re.sub(r'[^\d]', '', s)`).
   */
  function CleanPrice(priceStr: string): (r: string)
    ensures forall k :: 0 <= k < |r| ==> IsDigit(r[k])
    ensures |r| <= |priceStr|
  {
    if priceStr == "" then "" else Filter(IsDigit, priceStr)
  }

  /** Cleaning distributes over concatenation. */
  lemma CleanPriceConcat(a: string, b: string)
    ensures CleanPrice(a + b) == CleanPrice(a) + CleanPrice(b)
  {
    FilterAppend(IsDigit, a, b);
    if a == "" { assert a + b == b; }
    if b == "" { assert a + b == a; }
  }

  /**
   * Every digit of the input is kept, in order: the digit at index `i`
   * is the one preceded in the output by the digits of `s[..i]`.
   */
  lemma CleanPriceKeepsDigits(s: string, i: nat)
    requires i < |s| && IsDigit(s[i])
    ensures |CleanPrice(s[..i])| < |CleanPrice(s)|
    ensures CleanPrice(s)[|CleanPrice(s[..i])|] == s[i]
  {
    FilterAt(IsDigit, s, i);
  }

  /** A string of digits is its own clean price. */
  lemma {:induction false} CleanPriceOfDigits(s: string)
    requires forall k :: 0 <= k < |s| ==> IsDigit(s[k])
    ensures CleanPrice(s) == s
    decreases |s|
  {
    if s != [] {
      var s' := s[..|s| - 1];
      CleanPriceOfDigits(s');
      assert s == s' + [s[|s| - 1]];
      CleanPriceConcat(s', [s[|s| - 1]]);
      assert [s[|s| - 1]][..0] == [];
    }
  }

  /** Cleaning twice gives the same result as cleaning once. */
  lemma CleanPriceIdempotent(s: string)
    ensures CleanPrice(CleanPrice(s)) == CleanPrice(s)
  {
    CleanPriceOfDigits(CleanPrice(s));
  }

  /** The result is empty exactly when the input holds no digit. */
  lemma CleanPriceEmpty(s: string)
    ensures CleanPrice(s) == "" <==> forall k :: 0 <= k < |s| ==> !IsDigit(s[k])
  {
    FilterEmpty(IsDigit, s);
  }

  /** One character is kept exactly when it is a digit. */
  lemma CleanPriceChar(c: char)
    ensures CleanPrice([c]) == if IsDigit(c) then [c] else []
  {
    assert [c][..0] == [];
  }

  lemma CleanPriceExample()
    ensures CleanPrice("₹1,299") == "1299"
  {
    assert "₹1,299" == "₹1," + "299";
    CleanPriceConcat("₹1,", "299");
    CleanPriceOfDigits("299");
    CleanPriceSymbolOne();
  }

  lemma CleanPriceSymbolOne()
    ensures CleanPrice("₹1,") == "1"
  {
    assert "₹1," == "₹" + "1,";
    CleanPriceConcat("₹", "1,");
    CleanPriceChar('₹');
    assert "1," == "1" + ",";
    CleanPriceConcat("1", ",");
    CleanPriceChar('1');
    CleanPriceChar(',');
  }

  // ----- sanitize_filename -----

  /** The characters `sanitize_filename` deletes. */
  predicate Forbidden(c: char) {
    c == '\\' || c == '/' || c == '*' || c == '?' || c == ':'
    || c == '"' || c == '<' || c == '>' || c == '|'
  }

  predicate Allowed(c: char) {
    !Forbidden(c)
  }

  /** Python's slice `s[:n]`. */
  function Take(s: string, n: nat): (r: string)
    ensures |r| <= n && |r| <= |s|
    ensures r == s[..|r|]
    ensures |s| <= n ==> r == s
  {
    if |s| <= n then s else s[..n]
  }

  /** `sanitize_filename`: delete forbidden characters, keep 50, strip. */
  function SanitizeFilename(name: string): string {
    Strip(Take(Filter(Allowed, name), 50))
  }

  /**
   * A sanitised name is safe to use as a file name: no forbidden
   * character, at most 50 characters, no whitespace at either end.
   */
  lemma SanitizedIsSafe(name: string)
    ensures var r := SanitizeFilename(name);
      && (forall k :: 0 <= k < |r| ==> !Forbidden(r[k]))
      && |r| <= 50
      && (r == [] || (!IsSpace(r[0]) && !IsSpace(r[|r| - 1])))
  {
    var f := Filter(Allowed, name);
    var t := Take(f, 50);
    StripIsMiddle(t);
    var r := Strip(t);
    var a :| 0 <= a <= |t| - |r| && r == t[a..a + |r|];
    forall k | 0 <= k < |r| ensures !Forbidden(r[k]) {
      assert r[k] == t[a + k] == f[a + k];
      assert f[a + k] in f;
    }
  }

  /** A name that is already safe is left unchanged. */
  lemma SanitizeSafeName(name: string)
    requires forall k :: 0 <= k < |name| ==> !Forbidden(name[k])
    requires |name| <= 50
    requires name == [] || (!IsSpace(name[0]) && !IsSpace(name[|name| - 1]))
    ensures SanitizeFilename(name) == name
  {
    FilterAll(Allowed, name);
    StripNoMargin(name);
  }

  /** Sanitising twice gives the same result as sanitising once. */
  lemma SanitizeIdempotent(name: string)
    ensures SanitizeFilename(SanitizeFilename(name)) == SanitizeFilename(name)
  {
    SanitizedIsSafe(name);
    SanitizeSafeName(SanitizeFilename(name));
  }

  /** Filtering by a predicate every element satisfies changes nothing. */
  lemma {:induction false} FilterAll<T>(p: T -> bool, s: seq<T>)
    requires forall k :: 0 <= k < |s| ==> p(s[k])
    ensures Filter(p, s) == s
    decreases |s|
  {
    if s != [] {
      var s' := s[..|s| - 1];
      assert forall k :: 0 <= k < |s'| ==> s'[k] == s[k];
      FilterAll(p, s');
      assert s == s' + [s[|s| - 1]];
    }
  }

  // ----- the extension rule of download_image -----

  /** `s.split(sep)[-1]`: the text after the last `sep`. */
  function AfterLast(s: string, sep: char): (r: string)
    ensures sep !in r
  {
    var ps := Split(s, sep);
    ps[|ps| - 1]
  }

  /** `s.split(sep)[0]`: the text before the first `sep`. */
  function BeforeFirst(s: string, sep: char): (r: string)
    ensures sep !in r
  {
    Split(s, sep)[0]
  }

  /**
   * The extension `download_image` gives a saved image: the text after the
   * last `.` of the URL, cut at its first `?`, or `jpg` when that text is
   * empty or longer than four characters.
   */
  function ImageExtension(url: string): (ext: string)
    ensures 1 <= |ext| <= 4
    ensures '?' !in ext
  {
    var e := BeforeFirst(AfterLast(url, '.'), '?');
    if |e| > 4 || e == "" then "jpg" else e
  }

  /** A separator-free string splits into itself alone. */
  lemma SplitNoSep(t: string, sep: char)
    requires sep !in t
    ensures Split(t, sep) == [t]
  {
    SplitPrefix(t, "", sep);
    assert t + "" == t;
  }

  /** The last piece of a split is whatever follows the last separator. */
  lemma {:induction false} SplitSuffix(x: string, t: string, sep: char)
    requires sep !in t
    ensures |Split(x + [sep] + t, sep)| >= 2
    ensures Split(x + [sep] + t, sep)[|Split(x + [sep] + t, sep)| - 1] == t
    decreases |x|
  {
    var s := x + [sep] + t;
    if x == [] {
      assert s == [sep] + t && s[1..] == t;
      SplitNoSep(t, sep);
    } else {
      SplitSuffix(x[1..], t, sep);
      assert s[0] == x[0] && s[1..] == x[1..] + [sep] + t;
    }
  }

  /** The first piece of a split is whatever precedes the first separator. */
  lemma FirstPiece(e: string, c: string, sep: char)
    requires sep !in e
    requires c == "" || c[0] == sep
    ensures BeforeFirst(e + c, sep) == e
  {
    SplitPrefix(e, c, sep);
    if c == "" {
      assert Split(c, sep)[0] == "";
    } else {
      assert Split(c, sep)[0] == "";
    }
    assert e + "" == e;
  }

  /**
   * For a URL `a + "." + e + c` where `e + c` holds no `.`, `e` holds no
   * `?` and `c` is empty or starts the query with `?`, the extension is `e`
   * when it has one to four characters and `jpg` otherwise.
   */
  lemma ExtensionOf(url: string, a: string, e: string, c: string)
    requires url == a + "." + e + c
    requires '.' !in e && '.' !in c && '?' !in e
    requires c == "" || c[0] == '?'
    ensures ImageExtension(url) == if 1 <= |e| <= 4 then e else "jpg"
  {
    assert '.' !in e + c;
    assert url == a + ['.'] + (e + c);
    SplitSuffix(a, e + c, '.');
    FirstPiece(e, c, '?');
  }

  /** Without any `.`, the whole URL up to its first `?` is the candidate. */
  lemma ExtensionWithoutDot(url: string, e: string, c: string)
    requires url == e + c
    requires '.' !in url && '?' !in e
    requires c == "" || c[0] == '?'
    ensures ImageExtension(url) == if 1 <= |e| <= 4 then e else "jpg"
  {
    SplitNoSep(url, '.');
    FirstPiece(e, c, '?');
  }

  // ----- the file download_image writes -----

  /** Python's `str(n)` for a natural number. */
  function NatToString(n: nat): (r: string)
    ensures |r| >= 1
    ensures forall k :: 0 <= k < |r| ==> IsDigit(r[k])
    decreases n
  {
    var d := ['0', '1', '2', '3', '4', '5', '6', '7', '8', '9'][n % 10];
    if n < 10 then [d] else NatToString(n / 10) + [d]
  }

  /** `os.path.join(IMAGE_DIR, f"{index}_{clean_name}.{ext}")` on a POSIX system. */
  function ImagePath(url: string, filename: string, index: nat): (path: string)
    ensures |path| > 7 + |ImageExtension(url)|
    ensures path[..7] == "images/"
    ensures path[|path| - |ImageExtension(url)| - 1..] == "." + ImageExtension(url)
  {
    var ext := ImageExtension(url);
    var middle := NatToString(index) + "_" + SanitizeFilename(filename);
    var path := "images/" + middle + ("." + ext);
    assert path[..7] == "images/";
    assert path[|path| - |ext| - 1..] == "." + ext;
    path
  }

  /**
   * `download_image`: `N/A` for an empty URL; otherwise the image is fetched,
   * and `fetched` says whether the response had status 200 and the file was
   * written. A fetched image's path is returned, every other outcome is
   * `Failed`.
   */
  function DownloadImage(url: string, filename: string, index: nat, fetched: bool): (r: string)
    ensures url == "" ==> r == "N/A"
    ensures url != "" && !fetched ==> r == "Failed"
    ensures url != "" && fetched ==> r == ImagePath(url, filename, index) && r != "N/A" && r != "Failed"
  {
    if url == "" then "N/A"
    else if fetched then ImagePath(url, filename, index)
    else "Failed"
  }
}
