/** The Arch Linux directory bootstrapper of `directory_bootstrap/distros/arch.py`:
    the release-date patterns, picking the latest date from a download
    listing, the cache file names and download addresses, the chroot
    environment, the pacman mirror list, and the commands of the chroot
    stage with its nested mounts and unmounts. */
module DirectoryArch {
  import opened Wrappers
  import opened Text
  import opened PosixPath
  import opened Host
  import opened Sequences
  import Commands

  /** `SUPPORTED_ARCHITECTURES`. */
  const SupportedArchitectures: seq<string> := ["i686", "x86_64"]

  /** `_GPG_DISPLAY_KEY_FORMAT`. */
  const GpgDisplayKeyFormat := "0xlong"

  // ---------------------------------------------------------------------------
  // Release dates: `_year`, `_month`, `_day` and the three matchers built from them

  /** `[2-9][0-9]{3}`. */
  predicate YearOk(w: string) {
    |w| == 4 && '2' <= w[0] <= '9' && IsDigit(w[1]) && IsDigit(w[2]) && IsDigit(w[3])
  }

  /** `0[1-9]|1[12]`: months 01 to 09, 11 and 12 (not 10). */
  predicate MonthOk(w: string) {
    |w| == 2 && ((w[0] == '0' && '1' <= w[1] <= '9') || (w[0] == '1' && (w[1] == '1' || w[1] == '2')))
  }

  /** `0[1-9]|[12][0-9]|3[01]`. */
  predicate DayOk(w: string) {
    && |w| == 2
    && ((w[0] == '0' && '1' <= w[1] <= '9') || ((w[0] == '1' || w[0] == '2') && IsDigit(w[1]))
        || (w[0] == '3' && (w[1] == '0' || w[1] == '1')))
  }

  /** A date written as year, month and day with `sep` between them (nothing
      for the keyring packages, `.` for the images, `-` on the command line). */
  predicate IsDate(w: string, sep: string)
    requires |sep| <= 1
  {
    var n := |sep|;
    && |w| == 8 + 2 * n
    && YearOk(w[..4]) && w[4..4 + n] == sep && MonthOk(w[4 + n..6 + n])
    && w[6 + n..6 + 2 * n] == sep && DayOk(w[6 + 2 * n..])
  }

  /** The text of a date made of its three parts. */
  function DateOfParts(year: string, month: string, day: string, sep: string): string {
    year + sep + month + sep + day
  }

  lemma DateOfPartsIsDate(year: string, month: string, day: string, sep: string)
    requires |year| == 4 && |month| == 2 && |day| == 2 && |sep| <= 1
    ensures IsDate(DateOfParts(year, month, day, sep), sep) <==> YearOk(year) && MonthOk(month) && DayOk(day)
  {
    var w, n := DateOfParts(year, month, day, sep), |sep|;
    assert w[..4] == year && w[4..4 + n] == sep && w[4 + n..6 + n] == month;
    assert w[6 + n..6 + 2 * n] == sep && w[6 + 2 * n..] == day;
  }

  lemma DateParts(w: string, sep: string)
    requires |sep| <= 1 && IsDate(w, sep)
    ensures var n := |sep|; w == DateOfParts(w[..4], w[4 + n..6 + n], w[6 + 2 * n..], sep)
  {
    var n := |sep|;
    assert w == w[..4] + w[4..4 + n] + w[4 + n..6 + n] + w[6 + n..6 + 2 * n] + w[6 + 2 * n..];
  }

  /** The two matchers applied to download listings. */
  datatype DateMatcher = KeyringPackageDate | ImageDate {
    function Separator(): (sep: string)
      ensures |sep| <= 1
    {
      match this
      case KeyringPackageDate => ""
      case ImageDate => "."
    }
  }

  /** A date starts at position `j` of `s`. */
  predicate DateAt(s: string, sep: string, j: nat)
    requires |sep| <= 1
  {
    j + 8 + 2 * |sep| <= |s| && IsDate(s[j..j + 8 + 2 * |sep|], sep)
  }

  /** The leftmost position at or after `from` where a date starts. */
  function FirstDateAt(s: string, sep: string, from: nat): (r: Option<nat>)
    requires |sep| <= 1
    ensures r.Some? ==> from <= r.value && DateAt(s, sep, r.value)
    ensures r.Some? ==> forall j :: from <= j < r.value ==> !DateAt(s, sep, j)
    ensures r.None? ==> forall j :: from <= j ==> !DateAt(s, sep, j)
    decreases |s| - from
  {
    if from + 8 + 2 * |sep| > |s| then None
    else if DateAt(s, sep, from) then Some(from)
    else FirstDateAt(s, sep, from + 1)
  }

  /** `date_matcher.search(s)` and its `group(0)`: the leftmost date in `s`. */
  function Search(s: string, matcher: DateMatcher): (r: Option<string>)
    ensures r.Some? ==> IsDate(r.value, matcher.Separator())
  {
    var sep := matcher.Separator();
    match FirstDateAt(s, sep, 0)
    case None => None
    case Some(i) => Some(s[i..i + 8 + 2 * |sep|])
  }

  /** `search` finds nothing exactly when no date starts anywhere in the text,
      and otherwise finds the date at the leftmost position where one starts. */
  lemma SearchLeftmost(s: string, matcher: DateMatcher)
    ensures var sep := matcher.Separator();
      Search(s, matcher).None? <==> forall j :: 0 <= j ==> !DateAt(s, sep, j)
    ensures var sep := matcher.Separator();
      Search(s, matcher).Some? ==>
        exists i: nat :: && DateAt(s, sep, i)
                         && (forall j :: 0 <= j < i ==> !DateAt(s, sep, j))
                         && Search(s, matcher).value == s[i..i + 8 + 2 * |sep|]
  {
  }

  /** A text that is a date is its own leftmost date. */
  lemma SearchOfDate(w: string, matcher: DateMatcher)
    requires IsDate(w, matcher.Separator())
    ensures Search(w, matcher) == Some(w)
  {
    var sep := matcher.Separator();
    assert w[0..8 + 2 * |sep|] == w;
    assert DateAt(w, sep, 0);
  }

  /** What `^...$` sees of the text: `$` also matches just before a newline that ends it. */
  function AnchoredBody(text: string): string {
    if |text| == 11 && text[10] == '\n' then text[..10] else text
  }

  /** `date_argparse_type(text)`: the three numbers of a `YYYY-MM-DD` text, or
      the `ValueError` message. */
  function DateArgparseType(text: string): Result<(nat, nat, nat), string> {
    var body := AnchoredBody(text);
    if IsDate(body, "-") then
      Ok((DecimalValue(body[..4]), DecimalValue(body[5..7]), DecimalValue(body[8..])))
    else Err("Not a well-formed date: \"" + text + "\"")
  }

  /** The months the pattern accepts. */
  predicate MonthAccepted(m: nat) {
    1 <= m <= 9 || m == 11 || m == 12
  }

  /** Year, month and day, zero-padded to four, two and two digits, with `sep` between them. */
  function DateText(y: nat, m: nat, d: nat, sep: string): string {
    DateOfParts(ZeroPadded(y, 4), ZeroPadded(m, 2), ZeroPadded(d, 2), sep)
  }

  lemma DecimalValueOfTwo(w: string)
    requires |w| == 2 && AllDigits(w)
    ensures DecimalValue(w) == 10 * DigitValue(w[0]) + DigitValue(w[1])
  {
    var h := w[..1];
    assert DecimalValue(w) == 10 * DecimalValue(h) + DigitValue(w[1]);
    assert h[..0] == [] && h[0] == w[0];
    assert DecimalValue(h) == 10 * DecimalValue(h[..0]) + DigitValue(h[0]);
  }

  lemma DecimalValueOfFour(w: string)
    requires |w| == 4 && AllDigits(w)
    ensures DecimalValue(w) == 1000 * DigitValue(w[0]) + 100 * DigitValue(w[1]) + 10 * DigitValue(w[2]) + DigitValue(w[3])
  {
    assert w[..3][..2] == w[..2];
    DecimalValueOfTwo(w[..2]);
  }

  lemma YearOkValue(w: string)
    requires |w| == 4 && AllDigits(w)
    ensures YearOk(w) <==> 2000 <= DecimalValue(w) <= 9999
  {
    DecimalValueOfFour(w);
  }

  lemma MonthOkValue(w: string)
    requires |w| == 2 && AllDigits(w)
    ensures MonthOk(w) <==> MonthAccepted(DecimalValue(w))
  {
    DecimalValueOfTwo(w);
  }

  lemma DayOkValue(w: string)
    requires |w| == 2 && AllDigits(w)
    ensures DayOk(w) <==> 1 <= DecimalValue(w) <= 31
  {
    DecimalValueOfTwo(w);
  }

  /** A date in the accepted ranges, written with any separator, is a date. */
  lemma DateTextIsDate(y: nat, m: nat, d: nat, sep: string)
    requires 2000 <= y <= 9999 && MonthAccepted(m) && 1 <= d <= 31 && |sep| <= 1
    ensures IsDate(DateText(y, m, d, sep), sep)
  {
    assert Pow10(4) == 10000;
    DecimalValueOfZeroPadded(y, 4);
    DecimalValueOfZeroPadded(m, 2);
    DecimalValueOfZeroPadded(d, 2);
    YearOkValue(ZeroPadded(y, 4));
    MonthOkValue(ZeroPadded(m, 2));
    DayOkValue(ZeroPadded(d, 2));
    DateOfPartsIsDate(ZeroPadded(y, 4), ZeroPadded(m, 2), ZeroPadded(d, 2), sep);
  }

  /** A well-formed `YYYY-MM-DD` text is read as its three numbers, with or
      without a newline after it. */
  lemma ArgparseOfParts(year: string, month: string, day: string)
    requires |year| == 4 && |month| == 2 && |day| == 2
    requires YearOk(year) && MonthOk(month) && DayOk(day)
    ensures var t := DateOfParts(year, month, day, "-");
      && DateArgparseType(t) == Ok((DecimalValue(year), DecimalValue(month), DecimalValue(day)))
      && DateArgparseType(t + "\n") == DateArgparseType(t)
  {
    var t := DateOfParts(year, month, day, "-");
    DateOfPartsIsDate(year, month, day, "-");
    assert t[..4] == year && t[5..7] == month && t[8..] == day;
    assert AnchoredBody(t) == t;
    assert AnchoredBody(t + "\n") == t by {
      assert (t + "\n")[..10] == t;
    }
  }

  /** Every date in the accepted ranges is read back from its text, with or
      without a newline after it. */
  lemma DateArgparseTypeAccepts(y: nat, m: nat, d: nat)
    requires 2000 <= y <= 9999 && MonthAccepted(m) && 1 <= d <= 31
    ensures DateArgparseType(DateText(y, m, d, "-")) == Ok((y, m, d))
    ensures DateArgparseType(DateText(y, m, d, "-") + "\n") == Ok((y, m, d))
  {
    var ys, ms, ds := ZeroPadded(y, 4), ZeroPadded(m, 2), ZeroPadded(d, 2);
    assert Pow10(4) == 10000;
    DecimalValueOfZeroPadded(y, 4);
    DecimalValueOfZeroPadded(m, 2);
    DecimalValueOfZeroPadded(d, 2);
    YearOkValue(ys);
    MonthOkValue(ms);
    DayOkValue(ds);
    ArgparseOfParts(ys, ms, ds);
  }

  /** ... and nothing else is accepted: an accepted text is exactly such a
      date, possibly followed by one newline. */
  lemma DateArgparseTypeSound(text: string)
    requires DateArgparseType(text).Ok?
    ensures var (y, m, d) := DateArgparseType(text).value;
      && 2000 <= y <= 9999 && MonthAccepted(m) && 1 <= d <= 31
      && (text == DateText(y, m, d, "-") || text == DateText(y, m, d, "-") + "\n")
  {
    var body := AnchoredBody(text);
    DateParts(body, "-");
    var ys, ms, ds := body[..4], body[5..7], body[8..];
    YearOkValue(ys);
    MonthOkValue(ms);
    DayOkValue(ds);
    ZeroPaddedOfDecimalValue(ys);
    ZeroPaddedOfDecimalValue(ms);
    ZeroPaddedOfDecimalValue(ds);
    if |text| == 11 && text[10] == '\n' {
      assert text == body + "\n";
    }
  }

  /** October is refused: the month alternative `0[1-9]|1[12]` has no `10`. */
  lemma OctoberIsRejected(text: string)
    requires |text| >= 7 && text[5..7] == "10"
    ensures DateArgparseType(text).Err?
  {
    var body := AnchoredBody(text);
    assert body[5..7] == text[5..7];
  }

  // ---------------------------------------------------------------------------
  // `'%04s.%02d.%02d' % image_date_triple`

  /** `str(n)`. */
  function DecimalString(n: nat): (s: string)
    ensures s != [] && AllDigits(s)
  {
    if n < 10 then [DigitChar(n)] else DecimalString(n / 10) + [DigitChar(n % 10)]
  }

  /** `'%0<width>s' % s`: the `0` flag is ignored for strings, so shorter
      strings are padded with spaces on the left. */
  function PadLeft(s: string, width: nat): (r: string)
    ensures |r| == if |s| < width then width else |s|
    ensures |s| >= width ==> r == s
    ensures |r| >= |s| && r[|r| - |s|..] == s
    ensures forall k :: 0 <= k < |r| - |s| ==> r[k] == ' '
    decreases width - |s|
  {
    if |s| >= width then s
    else
      var t := [' '] + s;
      var r := PadLeft(t, width);
      assert r[|r| - |t|..] == t;
      assert r[|r| - |s|..] == t[1..];
      assert r[|r| - |t|] == ' ';
      r
  }

  /** `'%02d' % n`. */
  function TwoDigits(n: nat): string {
    if n < 10 then "0" + DecimalString(n) else DecimalString(n)
  }

  /** `'%04s.%02d.%02d' % date`. */
  function ImageDateString(date: (nat, nat, nat)): string {
    PadLeft(DecimalString(date.0), 4) + "." + TwoDigits(date.1) + "." + TwoDigits(date.2)
  }

  lemma {:induction false} DecimalStringOfWidth(n: nat, width: nat)
    requires width >= 1 && n < Pow10(width) && (width == 1 || Pow10(width - 1) <= n)
    ensures DecimalString(n) == ZeroPadded(n, width)
    decreases width
  {
    if width > 1 {
      assert Pow10(width - 1) == 10 * Pow10(width - 2);
      assert Pow10(width - 2) <= n / 10 < Pow10(width - 1);
      DecimalStringOfWidth(n / 10, width - 1);
    } else {
      assert ZeroPadded(n, 1) == ZeroPadded(n / 10, 0) + [DigitChar(n % 10)];
    }
  }

  lemma TwoDigitsPadded(n: nat)
    requires n < 100
    ensures TwoDigits(n) == ZeroPadded(n, 2)
  {
    if n < 10 {
      DecimalStringOfWidth(n, 1);
      assert ZeroPadded(n, 2) == ZeroPadded(n / 10, 1) + [DigitChar(n % 10)];
      assert ZeroPadded(0, 1) == ZeroPadded(0, 0) + [DigitChar(0)];
    } else {
      DecimalStringOfWidth(n, 2);
    }
  }

  /** An image date given on the command line names the image the listing
      would show: the same digits separated by dots, which the image date
      matcher finds in it. */
  lemma ImageDateOfArgument(text: string)
    requires DateArgparseType(text).Ok?
    ensures var date := DateArgparseType(text).value;
      && ImageDateString(date) == DateText(date.0, date.1, date.2, ".")
      && Search(ImageDateString(date), ImageDate) == Some(ImageDateString(date))
  {
    DateArgparseTypeSound(text);
    var (y, m, d) := DateArgparseType(text).value;
    assert Pow10(3) == 1000 && Pow10(4) == 10000;
    DecimalStringOfWidth(y, 4);
    TwoDigitsPadded(m);
    TwoDigitsPadded(d);
    DateTextIsDate(y, m, d, ".");
    SearchOfDate(DateText(y, m, d, "."), ImageDate);
  }

  // ---------------------------------------------------------------------------
  // `_extract_latest_date`

  /** Why `_extract_latest_date` raises: a link without `href` makes `search`
      fail, and an empty list of dates makes `sorted(dates)[-1]` fail. */
  datatype ExtractError = HrefMissing(index: nat) | NoDateFound

  /** The first link without an `href`. */
  function FirstMissing(hrefs: seq<Option<string>>): (r: Option<nat>)
    ensures r.Some? ==> r.value < |hrefs| && hrefs[r.value].None? && forall j :: 0 <= j < r.value ==> hrefs[j].Some?
    ensures r.None? ==> forall j :: 0 <= j < |hrefs| ==> hrefs[j].Some?
    decreases |hrefs|
  {
    if hrefs == [] then None
    else if hrefs[0].None? then Some(0)
    else match FirstMissing(hrefs[1..])
      case None => None
      case Some(i) => Some(i + 1)
  }

  /** The date one link contributes: the leftmost date in its `href`, if any. */
  function LinkDates(href: Option<string>, matcher: DateMatcher): seq<string> {
    if href.None? then []
    else match Search(href.value, matcher)
      case None => []
      case Some(d) => [d]
  }

  /** `LinkDates` for a fixed matcher, as a function of the link. */
  function DateCollector(matcher: DateMatcher): Option<string> -> seq<string> {
    href => LinkDates(href, matcher)
  }

  /** The dates the loop collects, in link order. */
  function MatchedDates(hrefs: seq<Option<string>>, matcher: DateMatcher): seq<string> {
    ConcatMap(hrefs, DateCollector(matcher))
  }

  lemma LinkDatesOf(href: Option<string>, matcher: DateMatcher, x: string)
    ensures x in DateCollector(matcher)(href) <==> href.Some? && Search(href.value, matcher) == Some(x)
  {
  }

  lemma MatchedDatesStep(hrefs: seq<Option<string>>, i: nat, matcher: DateMatcher)
    requires i < |hrefs|
    ensures MatchedDates(hrefs[..i + 1], matcher) == MatchedDates(hrefs[..i], matcher) + LinkDates(hrefs[i], matcher)
  {
    ConcatMapStep(hrefs, i, DateCollector(matcher));
  }

  /** The same step, in terms of the outcome `m` of the search in link `i`. */
  lemma MatchedDatesFound(hrefs: seq<Option<string>>, i: nat, matcher: DateMatcher, m: Option<string>)
    requires i < |hrefs| && hrefs[i].Some? && m == Search(hrefs[i].value, matcher)
    ensures MatchedDates(hrefs[..i + 1], matcher) ==
      MatchedDates(hrefs[..i], matcher) + (if m.None? then [] else [m.value])
  {
    MatchedDatesStep(hrefs, i, matcher);
  }

  /** The loop stops at the first link without an `href`. */
  lemma LatestDateOfMissing(hrefs: seq<Option<string>>, i: nat, matcher: DateMatcher)
    requires i < |hrefs| && hrefs[i].None? && forall j :: 0 <= j < i ==> hrefs[j].Some?
    ensures LatestDate(hrefs, matcher) == Err(HrefMissing(i))
  {
    assert FirstMissing(hrefs) == Some(i);
  }

  /** What `_extract_latest_date` returns for the `href`s of the listing's links. */
  function LatestDate(hrefs: seq<Option<string>>, matcher: DateMatcher): Result<string, ExtractError> {
    match FirstMissing(hrefs)
    case Some(i) => Err(HrefMissing(i))
    case None =>
      var dates := MatchedDates(hrefs, matcher);
      if dates == [] then Err(NoDateFound) else Ok(MaxLex(dates))
  }

  /** For a listing whose links all have an `href`, the result depends only
      on the collected dates. */
  lemma LatestDateOfComplete(hrefs: seq<Option<string>>, matcher: DateMatcher)
    requires forall j :: 0 <= j < |hrefs| ==> hrefs[j].Some?
    ensures var dates := MatchedDates(hrefs, matcher);
      LatestDate(hrefs, matcher) == if dates == [] then Err(NoDateFound) else Ok(MaxLex(dates))
  {
    assert FirstMissing(hrefs) == None;
  }

  /** The collected dates are exactly the leftmost dates of the links that have one. */
  lemma MatchedDatesMembers(hrefs: seq<Option<string>>, matcher: DateMatcher)
    ensures forall x :: x in MatchedDates(hrefs, matcher) ==>
      exists k :: 0 <= k < |hrefs| && hrefs[k].Some? && Search(hrefs[k].value, matcher) == Some(x)
    ensures forall k :: 0 <= k < |hrefs| && hrefs[k].Some? && Search(hrefs[k].value, matcher).Some? ==>
      Search(hrefs[k].value, matcher).value in MatchedDates(hrefs, matcher)
  {
    var f := DateCollector(matcher);
    ConcatMapMembers(hrefs, f);
    forall x | x in MatchedDates(hrefs, matcher)
      ensures exists k :: 0 <= k < |hrefs| && hrefs[k].Some? && Search(hrefs[k].value, matcher) == Some(x)
    {
      var k :| 0 <= k < |hrefs| && x in f(hrefs[k]);
      LinkDatesOf(hrefs[k], matcher, x);
    }
    forall k | 0 <= k < |hrefs| && hrefs[k].Some? && Search(hrefs[k].value, matcher).Some?
      ensures Search(hrefs[k].value, matcher).value in MatchedDates(hrefs, matcher)
    {
      LinkDatesOf(hrefs[k], matcher, Search(hrefs[k].value, matcher).value);
    }
  }

  /** The result is the greatest date of the listing in string order, a date
      that occurs in it; the call fails exactly when a link has no `href` or
      no link holds a date. */
  lemma LatestDateIsGreatest(hrefs: seq<Option<string>>, matcher: DateMatcher)
    ensures LatestDate(hrefs, matcher).Ok? ==>
      var d := LatestDate(hrefs, matcher).value;
      && IsDate(d, matcher.Separator())
      && (exists k :: 0 <= k < |hrefs| && hrefs[k].Some? && Search(hrefs[k].value, matcher) == Some(d))
      && forall k :: 0 <= k < |hrefs| && hrefs[k].Some? && Search(hrefs[k].value, matcher).Some? ==>
           !LexLess(d, Search(hrefs[k].value, matcher).value)
    ensures LatestDate(hrefs, matcher) == Err(NoDateFound) <==>
      (forall k :: 0 <= k < |hrefs| ==> hrefs[k].Some?)
      && forall k :: 0 <= k < |hrefs| && hrefs[k].Some? ==> Search(hrefs[k].value, matcher).None?
  {
    MatchedDatesMembers(hrefs, matcher);
    var dates := MatchedDates(hrefs, matcher);
    if dates != [] {
      assert dates[0] in dates;
    }
  }

  // ---------------------------------------------------------------------------
  // Cache files and download addresses

  /** The directories the keyring packages and the bootstrap images are downloaded from. */
  const KeyringBaseUrl := "https://sources.archlinux.org/other/archlinux-keyring"
  const ImageBaseUrl := "https://mirrors.kernel.org/archlinux/iso"

  function KeyringPackageName(date: string, suffix: string): string {
    "archlinux-keyring-" + date + ".tar.gz" + suffix
  }

  function ImageName(date: string, architecture: string, suffix: string): string {
    "archlinux-bootstrap-" + date + "-" + architecture + ".tar.gz" + suffix
  }

  /** The cache file and the address of a keyring package. */
  function KeyringPackageFile(cacheDir: string, date: string, suffix: string): string {
    Join(cacheDir, KeyringPackageName(date, suffix))
  }

  function KeyringPackageUrl(date: string, suffix: string): string {
    KeyringBaseUrl + "/" + KeyringPackageName(date, suffix)
  }

  /** The cache file and the address of a bootstrap image. */
  function ImageFile(cacheDir: string, date: string, architecture: string, suffix: string): string {
    Join(cacheDir, ImageName(date, architecture, suffix))
  }

  function ImageUrl(date: string, architecture: string, suffix: string): string {
    ImageBaseUrl + "/" + date + "/" + ImageName(date, architecture, suffix)
  }

  /** The last `/`-separated part of `s`. */
  function LastPart(s: string): string {
    var parts := SplitOn('/', s);
    parts[|parts| - 1]
  }

  lemma {:induction false} LastPartOf(x: string, name: string)
    requires '/' !in name
    ensures LastPart(x + "/" + name) == name
    decreases |x|
  {
    if '/' !in x {
      SplitOnAppend('/', x, name);
      SplitOnNoSep('/', name);
    } else {
      var j := SlashIndex(x);
      var head, tail := x[..j], x[j + 1..];
      assert x == head + "/" + tail;
      assert x + "/" + name == head + "/" + (tail + "/" + name);
      SplitOnAppend('/', head, tail + "/" + name);
      LastPartOf(tail, name);
    }
  }

  /** The position of the first `/` in `x`. */
  function SlashIndex(x: string): (j: nat)
    requires '/' in x
    ensures j < |x| && x[j] == '/' && '/' !in x[..j]
    decreases |x|
  {
    if x[0] == '/' then 0
    else
      var j := SlashIndex(x[1..]);
      assert x[..j + 1] == [x[0]] + x[1..][..j];
      j + 1
  }

  /** A file named after the last part of its download address lands in the
      cache directory under that name. */
  lemma CacheFileOfUrl(cacheDir: string, base: string, name: string)
    requires cacheDir != [] && cacheDir[|cacheDir| - 1] != '/'
    requires name != [] && '/' !in name
    ensures Join(cacheDir, name) == cacheDir + "/" + LastPart(base + "/" + name)
  {
    LastPartOf(base, name);
    assert name[0] in name;
  }

  lemma NamesWithoutSlash(date: string, architecture: string, suffix: string)
    requires '/' !in date && '/' !in architecture && '/' !in suffix
    ensures '/' !in KeyringPackageName(date, suffix) && '/' !in ImageName(date, architecture, suffix)
  {
    assert '/' !in "archlinux-keyring-" && '/' !in ".tar.gz" && '/' !in "archlinux-bootstrap-" && '/' !in "-";
  }

  /** The downloaded file keeps the name it has at the download address, in
      the cache directory, and a signature is the file name with `.sig`
      added. */
  lemma DownloadNames(cacheDir: string, date: string, architecture: string)
    requires cacheDir != [] && cacheDir[|cacheDir| - 1] != '/'
    requires '/' !in date && '/' !in architecture
    ensures KeyringPackageFile(cacheDir, date, "") == cacheDir + "/" + LastPart(KeyringPackageUrl(date, ""))
    ensures KeyringPackageFile(cacheDir, date, ".sig") == KeyringPackageFile(cacheDir, date, "") + ".sig"
    ensures ImageFile(cacheDir, date, architecture, "") == cacheDir + "/" + LastPart(ImageUrl(date, architecture, ""))
    ensures ImageFile(cacheDir, date, architecture, ".sig") == ImageFile(cacheDir, date, architecture, "") + ".sig"
  {
    var kn, im := KeyringPackageName(date, ""), ImageName(date, architecture, "");
    NamesWithoutSlash(date, architecture, "");
    NamesWithoutSlash(date, architecture, ".sig");
    assert kn[0] == 'a' && im[0] == 'a';
    CacheFileOfUrl(cacheDir, KeyringBaseUrl, kn);
    CacheFileOfUrl(cacheDir, ImageBaseUrl + "/" + date, im);
    assert ImageUrl(date, architecture, "") == (ImageBaseUrl + "/" + date) + "/" + im;
    assert KeyringPackageName(date, ".sig") == kn + ".sig";
    assert ImageName(date, architecture, ".sig") == im + ".sig";
  }

  /** `_get_gpg_argv_start(home)`: gpg in a new PID namespace, so that the
      agent it starts dies with it, with its own home directory and long key ids. */
  function GpgArgvStart(gpgHome: string): (argv: seq<string>)
    ensures |argv| == 9
    ensures argv[..3] == [Commands.Unshare, "--fork", "--pid"] && argv[3] == Commands.Gpg
    ensures argv[4..6] == ["--home", gpgHome] && argv[6..8] == ["--keyid-format", GpgDisplayKeyFormat]
    ensures argv[8] == "--batch"
  {
    [Commands.Unshare, "--fork", "--pid", Commands.Gpg, "--home", gpgHome, "--keyid-format", GpgDisplayKeyFormat, "--batch"]
  }

  /** `_extract_image`'s inner root: `root.<architecture>` inside the
      `pacstrap_root` directory of the temporary directory. */
  function PacstrapInnerRoot(tempDir: string, architecture: string): string {
    Join(Join(Join(tempDir, "pacstrap_root"), ""), "root." + architecture)
  }

  lemma PacstrapInnerRootShape(tempDir: string, architecture: string)
    requires tempDir != [] && tempDir[|tempDir| - 1] != '/'
    ensures PacstrapInnerRoot(tempDir, architecture) == tempDir + "/pacstrap_root/root." + architecture
  {
    var a := Join(tempDir, "pacstrap_root");
    JoinRelative(tempDir, "pacstrap_root");
    assert a == tempDir + "/" + "pacstrap_root";
    var b := Join(a, "");
    assert b == a + "/";
    var leaf := "root." + architecture;
    JoinRelative(b, leaf);
  }

  // ---------------------------------------------------------------------------
  // `_make_chroot_env`

  /** The environment the chroot commands get: the caller's without `LANG`
      and `LANGUAGE`, and with `LC_ALL=C`. */
  function ChrootEnv(environ: Env): (env: Env)
    ensures "LANG" !in env && "LANGUAGE" !in env && "LC_ALL" in env && env["LC_ALL"] == "C"
    ensures forall k :: k in environ && k != "LANG" && k != "LANGUAGE" && k != "LC_ALL" ==> k in env && env[k] == environ[k]
    ensures forall k :: k in env ==> k in environ || k == "LC_ALL"
  {
    (environ - {"LANG", "LANGUAGE"})["LC_ALL" := "C"]
  }

  // ---------------------------------------------------------------------------
  // Commands of the chroot stage

  /** One entry of `_NON_DISK_MOUNT_TASKS`. */
  datatype MountTask = MountTask(source: string, options: seq<string>, target: string)

  const NonDiskMountTasks: seq<MountTask> := [
    MountTask("/dev", ["-o", "bind"], "dev"),
    MountTask("/dev/pts", ["-o", "bind"], "dev/pts"),
    MountTask("PROC", ["-t", "proc"], "proc")]

  function NonDiskMount(innerRoot: string, task: MountTask): Event {
    Exec([Commands.Mount, task.source] + task.options + [Join(innerRoot, task.target)], None)
  }

  /** The mount commands of `_mount_nondisk_chroot_mounts`, in task order. */
  function MountEvents(innerRoot: string, tasks: seq<MountTask>): (r: seq<Event>)
    ensures |r| == |tasks| && forall k :: 0 <= k < |tasks| ==> r[k] == NonDiskMount(innerRoot, tasks[k])
    decreases |tasks|
  {
    if tasks == [] then [] else [NonDiskMount(innerRoot, tasks[0])] + MountEvents(innerRoot, tasks[1..])
  }

  /** The unmounts of `_unmount_nondisk_chroot_mounts`, over the reversed tasks. */
  function UnmountEvents(innerRoot: string, tasks: seq<MountTask>): (r: seq<Event>)
    ensures |r| == |tasks| && forall k :: 0 <= k < |tasks| ==> r[k] == Unmount(Join(innerRoot, tasks[|tasks| - 1 - k].target))
    decreases |tasks|
  {
    if tasks == [] then [] else UnmountEvents(innerRoot, tasks[1..]) + [Unmount(Join(innerRoot, tasks[0].target))]
  }

  /** The last word of a command: where a `mount` command mounts. */
  function LastArgument(e: Event): string {
    if e.Exec? && |e.argv| > 0 then e.argv[|e.argv| - 1] else ""
  }

  /** The unmounts release the mount points in exactly the reverse order of
      the mounts: the `k`-th unmount is of the mount point of the `k`-th
      mount from the end. */
  lemma UnmountsReverseMounts(innerRoot: string, tasks: seq<MountTask>)
    ensures var ms, us := MountEvents(innerRoot, tasks), UnmountEvents(innerRoot, tasks);
      |us| == |ms| && forall k :: 0 <= k < |us| ==> us[k] == Unmount(LastArgument(ms[|ms| - 1 - k]))
  {
    forall k | 0 <= k < |tasks|
      ensures UnmountEvents(innerRoot, tasks)[k] == Unmount(LastArgument(MountEvents(innerRoot, tasks)[|tasks| - 1 - k]))
    {
      UnmountReversesMount(innerRoot, tasks, k);
    }
  }

  lemma UnmountReversesMount(innerRoot: string, tasks: seq<MountTask>, k: nat)
    requires k < |tasks|
    ensures UnmountEvents(innerRoot, tasks)[k] == Unmount(LastArgument(MountEvents(innerRoot, tasks)[|tasks| - 1 - k]))
  {
    var i := |tasks| - 1 - k;
    assert MountEvents(innerRoot, tasks)[i] == NonDiskMount(innerRoot, tasks[i]);
    assert UnmountEvents(innerRoot, tasks)[k] == Unmount(Join(innerRoot, tasks[|tasks| - 1 - k].target));
    NonDiskMountTarget(innerRoot, tasks[i]);
  }

  /** A non-disk mount command ends with its mount point. */
  lemma NonDiskMountTarget(innerRoot: string, task: MountTask)
    ensures LastArgument(NonDiskMount(innerRoot, task)) == Join(innerRoot, task.target)
  {
  }

  /** The two `pacman-key` commands of `_initialize_pacman_keyring`. */
  function KeyringEvents(innerRoot: string, env: Env): seq<Event> {
    [Exec([Commands.Unshare, "--fork", "--pid", Commands.Chroot, innerRoot, "pacman-key", "--init"], Some(env)),
     Exec([Commands.Unshare, "--fork", "--pid", Commands.Chroot, innerRoot, "pacman-key", "--populate", "archlinux"], Some(env))]
  }

  /** `_run_pacstrap`'s command: pacstrap into the target, seen from inside the chroot. */
  function PacstrapEvent(innerRoot: string, relTarget: string, env: Env): Event {
    Exec([Commands.Chroot, innerRoot, "pacstrap", Join("/", relTarget)], Some(env))
  }

  /** The target directory as seen from the inner root. */
  const PacstrapTargetRel: string := "mnt/arch_root/"

  /** It is `os.path.join('mnt', 'arch_root', '')`. */
  lemma PacstrapTargetRelIsJoin()
    ensures Join(Join("mnt", "arch_root"), "") == PacstrapTargetRel
  {
    JoinRelative("mnt", "arch_root");
    JoinRelative("mnt/arch_root", "");
  }

  function DiskMount(targetDir: string, absTarget: string): Event {
    Exec([Commands.Mount, "-o", "bind", targetDir, absTarget], None)
  }

  /** Keyring set-up and pacstrap, the work done inside the mounts. */
  function StageWork(innerRoot: string, env: Env): seq<Event> {
    KeyringEvents(innerRoot, env) + [PacstrapEvent(innerRoot, PacstrapTargetRel, env)]
  }

  /** What the chroot stage of `run` asks the executor to do: the bind mount
      of the target directory; inside its `try`, the non-disk mounts; inside
      theirs, keyring set-up and pacstrap; each `finally` undoing its own
      mounts. A failing command ends its block, and the `finally`s still run. */
  function StageEvents(failing: set<seq<string>>, targetDir: string, innerRoot: string, env: Env): seq<Event> {
    var absTarget := Join(innerRoot, PacstrapTargetRel);
    var disk := DiskMount(targetDir, absTarget);
    var mounts := MountEvents(innerRoot, NonDiskMountTasks);
    if Fails(disk, failing) then [disk]
    else if !AllSucceed(mounts, failing) then [disk] + Attempted(mounts, failing) + [Unmount(absTarget)]
    else
      [disk] + mounts + (Attempted(StageWork(innerRoot, env), failing) + UnmountEvents(innerRoot, NonDiskMountTasks))
      + [Unmount(absTarget)]
  }

  /** Once the target is bind-mounted, whatever fails afterwards, the last
      thing done is to unmount it; when the non-disk mounts all succeeded,
      their unmounts come right before it, whether or not keyring set-up or
      pacstrap failed. */
  lemma StageUnmountsLast(failing: set<seq<string>>, targetDir: string, innerRoot: string, env: Env)
    requires !Fails(DiskMount(targetDir, Join(innerRoot, PacstrapTargetRel)), failing)
    ensures var s := StageEvents(failing, targetDir, innerRoot, env);
      |s| >= 2 && s[0] == DiskMount(targetDir, Join(innerRoot, PacstrapTargetRel))
      && s[|s| - 1] == Unmount(Join(innerRoot, PacstrapTargetRel))
    ensures var s := StageEvents(failing, targetDir, innerRoot, env);
      AllSucceed(MountEvents(innerRoot, NonDiskMountTasks), failing) ==>
        |s| >= 5 && s[|s| - 4..|s| - 1] == UnmountEvents(innerRoot, NonDiskMountTasks)
  {
    var s := StageEvents(failing, targetDir, innerRoot, env);
    var us := UnmountEvents(innerRoot, NonDiskMountTasks);
    if AllSucceed(MountEvents(innerRoot, NonDiskMountTasks), failing) {
      var front := [DiskMount(targetDir, Join(innerRoot, PacstrapTargetRel))] + MountEvents(innerRoot, NonDiskMountTasks)
        + Attempted(StageWork(innerRoot, env), failing);
      assert s == front + us + [Unmount(Join(innerRoot, PacstrapTargetRel))];
      assert s[|s| - 4..|s| - 1] == us;
    }
  }

  /** A failed bind mount of the target ends the stage at once; a failed
      non-disk mount skips keyring set-up, pacstrap and every non-disk
      unmount (so non-disk mounts made before it stay in place), and only the
      target is unmounted. */
  lemma StageFailedMounts(failing: set<seq<string>>, targetDir: string, innerRoot: string, env: Env)
    ensures var absTarget := Join(innerRoot, PacstrapTargetRel);
      Fails(DiskMount(targetDir, absTarget), failing) ==>
        StageEvents(failing, targetDir, innerRoot, env) == [DiskMount(targetDir, absTarget)]
    ensures var absTarget := Join(innerRoot, PacstrapTargetRel);
      var s := StageEvents(failing, targetDir, innerRoot, env);
      !AllSucceed(MountEvents(innerRoot, NonDiskMountTasks), failing) ==>
        forall k :: 0 <= k < |s| && s[k].Unmount? ==> s[k].path == absTarget
  {
    var absTarget := Join(innerRoot, PacstrapTargetRel);
    var mounts := MountEvents(innerRoot, NonDiskMountTasks);
    StageEventsCases(failing, targetDir, innerRoot, env);
    if !Fails(DiskMount(targetDir, absTarget), failing) && !AllSucceed(mounts, failing) {
      var s := StageEvents(failing, targetDir, innerRoot, env);
      var att := Attempted(mounts, failing);
      AttemptedExecs(mounts, failing);
      assert s == [DiskMount(targetDir, absTarget)] + att + [Unmount(absTarget)];
      OnlyLastUnmounts(s, DiskMount(targetDir, absTarget), att, Unmount(absTarget));
    }
  }

  /** Between a command and a final event, only commands: the final event is
      the only unmount. */
  lemma OnlyLastUnmounts(s: seq<Event>, first: Event, middle: seq<Event>, last: Event)
    requires s == [first] + middle + [last]
    requires first.Exec? && forall k :: 0 <= k < |middle| ==> middle[k].Exec?
    ensures forall k :: 0 <= k < |s| && s[k].Unmount? ==> s[k] == last
  {
    forall k | 0 <= k < |s| - 1
      ensures s[k].Exec?
    {
      if k > 0 {
        assert s[k] == middle[k - 1];
      }
    }
  }

  /** Attempting only commands records only commands. */
  lemma {:induction false} AttemptedExecs(events: seq<Event>, failing: set<seq<string>>)
    requires forall k :: 0 <= k < |events| ==> events[k].Exec?
    ensures forall k :: 0 <= k < |Attempted(events, failing)| ==> Attempted(events, failing)[k].Exec?
    decreases |events|
  {
    if events != [] {
      assert forall k :: 0 <= k < |events[1..]| ==> events[1..][k] == events[k + 1];
      AttemptedExecs(events[1..], failing);
    }
  }

  /** The mirror list lines `_adjust_pacman_mirror_list` appends: an empty
      line, a marker comment, and the mirror. */
  function MirrorListAddition(mirrorUrl: string): string {
    "\n" + "## Added by directory-bootstrap" + "\n" + "Server = " + mirrorUrl + "\n"
  }

  /** `ArchBootstrapper`: the directories, architecture and mirror it is
      configured with, the executor it runs commands through, the files it
      writes, and the process environment `os.environ`. */
  class ArchBootstrapper {
    const executor: Executor
    const files: FileSystem
    const targetDir: string
    const cacheDir: string
    const architecture: string
    const mirrorUrl: string
    const environ: Env

    constructor (executor: Executor, files: FileSystem, targetDir: string, cacheDir: string,
                 architecture: string, mirrorUrl: string, environ: Env)
      ensures this.executor == executor && this.files == files && this.targetDir == targetDir
      ensures this.cacheDir == cacheDir && this.architecture == architecture
      ensures this.mirrorUrl == mirrorUrl && this.environ == environ
    {
      this.executor := executor;
      this.files := files;
      this.targetDir := targetDir;
      this.cacheDir := cacheDir;
      this.architecture := architecture;
      this.mirrorUrl := mirrorUrl;
      this.environ := environ;
    }

    /** `get_commands_to_check_for()`. */
    static function CommandsToCheckFor(): (r: seq<string>)
      ensures |r| == 5 && r[0] == Commands.Chroot && r[4] == Commands.Wget
      ensures forall k :: 0 <= k < |r| ==> r[k] != Commands.Unshare
    {
      [Commands.Chroot, Commands.Gpg, Commands.Mount, Commands.Umount, Commands.Wget]
    }

    /** `_extract_latest_date(listing, matcher)` on the `href`s of the
        listing's links (`None` for a link without one). */
    static method ExtractLatestDate(hrefs: seq<Option<string>>, matcher: DateMatcher)
      returns (r: Result<string, ExtractError>)
      ensures r == LatestDate(hrefs, matcher)
    {
      var dates: seq<string> := [];
      for i := 0 to |hrefs|
        invariant forall j :: 0 <= j < i ==> hrefs[j].Some?
        invariant dates == MatchedDates(hrefs[..i], matcher)
      {
        if hrefs[i].None? {
          LatestDateOfMissing(hrefs, i, matcher);
          return Err(HrefMissing(i));
        }
        assert forall j :: 0 <= j <= i ==> hrefs[j].Some?;
        var m := Search(hrefs[i].value, matcher);
        MatchedDatesFound(hrefs, i, matcher, m);
        if m.None? {
          continue;
        }
        dates := dates + [m.value];
      }
      assert hrefs[..|hrefs|] == hrefs;
      LatestDateOfComplete(hrefs, matcher);
      if dates == [] {
        return Err(NoDateFound);
      }
      return Ok(MaxLex(dates));
    }

    /** `_download_url_to_file(url, filename)`: nothing is run for a file that
        is already in the cache. */
    method DownloadUrlToFile(url: string, filename: string) returns (ok: bool)
      modifies executor
      ensures files.Exists(filename) ==> ok && executor.log == old(executor.log)
      ensures !files.Exists(filename) ==>
        var e := Exec([Commands.Wget, "-O" + filename, url], None);
        executor.log == old(executor.log) + [e] && ok == !Fails(e, executor.failing)
    {
      if files.Exists(filename) {
        return true;
      }
      ok := executor.CheckCall([Commands.Wget, "-O" + filename, url], None);
    }

    /** `_download_keyring_package(date, suffix)`. */
    method DownloadKeyringPackage(date: string, suffix: string) returns (filename: string, ok: bool)
      modifies executor
      ensures filename == KeyringPackageFile(cacheDir, date, suffix)
      ensures files.Exists(filename) ==> ok && executor.log == old(executor.log)
      ensures !files.Exists(filename) ==>
        var e := Exec([Commands.Wget, "-O" + filename, KeyringPackageUrl(date, suffix)], None);
        executor.log == old(executor.log) + [e] && ok == !Fails(e, executor.failing)
    {
      filename := KeyringPackageFile(cacheDir, date, suffix);
      ok := DownloadUrlToFile(KeyringPackageUrl(date, suffix), filename);
    }

    /** `_download_image(date, suffix)`. */
    method DownloadImage(date: string, suffix: string) returns (filename: string, ok: bool)
      modifies executor
      ensures filename == ImageFile(cacheDir, date, architecture, suffix)
      ensures files.Exists(filename) ==> ok && executor.log == old(executor.log)
      ensures !files.Exists(filename) ==>
        var e := Exec([Commands.Wget, "-O" + filename, ImageUrl(date, architecture, suffix)], None);
        executor.log == old(executor.log) + [e] && ok == !Fails(e, executor.failing)
    {
      filename := ImageFile(cacheDir, date, architecture, suffix);
      ok := DownloadUrlToFile(ImageUrl(date, architecture, suffix), filename);
    }

    /** `_make_chroot_env()`: a copy of the environment with two keys popped
        and one set. */
    method MakeChrootEnv() returns (env: Env)
      ensures env == ChrootEnv(environ)
    {
      env := environ;
      var keys := ["LANG", "LANGUAGE"];
      for i := 0 to |keys|
        invariant forall k :: k in env <==> k in environ && k !in keys[..i]
        invariant forall k :: k in env ==> env[k] == environ[k]
      {
        assert keys[..i + 1] == keys[..i] + [keys[i]];
        env := env - {keys[i]};
      }
      assert keys[..|keys|] == keys;
      assert env == environ - {"LANG", "LANGUAGE"};
      env := env["LC_ALL" := "C"];
    }

    /** `_adjust_pacman_mirror_list(inner_root)`: three lines appended to the
        mirror list, through one file opened for appending, whose earlier
        content is kept in front of them. */
    method AdjustPacmanMirrorList(innerRoot: string)
      modifies files
      ensures var path := Join(innerRoot, "etc/pacman.d/mirrorlist");
        var before := if path in old(files.entries) && old(files.entries)[path].File? then old(files.entries)[path].content else "";
        files.entries == old(files.entries)[path := File(before + MirrorListAddition(mirrorUrl))]
    {
      var path := Join(innerRoot, "etc/pacman.d/mirrorlist");
      var text := MirrorListAddition(mirrorUrl);
      files.AppendFile(path, text);
      assert "" + text == text;
    }

    /** `_initialize_pacman_keyring(inner_root)`: the two `pacman-key`
        commands in the chroot environment, the second only after the first
        succeeded. */
    method InitializePacmanKeyring(innerRoot: string) returns (ok: bool)
      modifies executor
      ensures executor.log == old(executor.log) + Attempted(KeyringEvents(innerRoot, ChrootEnv(environ)), executor.failing)
      ensures ok == AllSucceed(KeyringEvents(innerRoot, ChrootEnv(environ)), executor.failing)
    {
      var env := MakeChrootEnv();
      var events := KeyringEvents(innerRoot, env);
      ok := executor.CheckCall([Commands.Unshare, "--fork", "--pid", Commands.Chroot, innerRoot, "pacman-key", "--init"], Some(env));
      if !ok {
        AttemptedUpToFailure(events, 0, executor.failing);
        return;
      }
      ok := executor.CheckCall([Commands.Unshare, "--fork", "--pid", Commands.Chroot, innerRoot, "pacman-key", "--populate", "archlinux"], Some(env));
      if !ok {
        AttemptedUpToFailure(events, 1, executor.failing);
      } else {
        AttemptedAll(events, executor.failing);
      }
    }

    /** `_run_pacstrap(inner_root, rel_target)`. */
    method RunPacstrap(innerRoot: string, relTarget: string) returns (ok: bool)
      modifies executor
      ensures executor.log == old(executor.log) + [PacstrapEvent(innerRoot, relTarget, ChrootEnv(environ))]
      ensures ok == !Fails(PacstrapEvent(innerRoot, relTarget, ChrootEnv(environ)), executor.failing)
    {
      var env := MakeChrootEnv();
      ok := executor.CheckCall([Commands.Chroot, innerRoot, "pacstrap", Join("/", relTarget)], Some(env));
    }

    /** `_mount_disk_chroot_mounts(abs_target)`: the target directory bind-mounted into the chroot. */
    method MountDiskChrootMounts(absTarget: string) returns (ok: bool)
      modifies executor
      ensures executor.log == old(executor.log) + [DiskMount(targetDir, absTarget)]
      ensures ok == !Fails(DiskMount(targetDir, absTarget), executor.failing)
    {
      ok := executor.CheckCall([Commands.Mount, "-o", "bind", targetDir, absTarget], None);
    }

    /** `_mount_nondisk_chroot_mounts(inner_root)`: one mount per task, in
        order, until one fails. */
    method MountNondiskChrootMounts(innerRoot: string) returns (ok: bool)
      modifies executor
      ensures executor.log == old(executor.log) + Attempted(MountEvents(innerRoot, NonDiskMountTasks), executor.failing)
      ensures ok == AllSucceed(MountEvents(innerRoot, NonDiskMountTasks), executor.failing)
    {
      var tasks := NonDiskMountTasks;
      var events := MountEvents(innerRoot, tasks);
      for i := 0 to |tasks|
        invariant executor.log == old(executor.log) + events[..i]
        invariant AllSucceed(events[..i], executor.failing)
      {
        var task := tasks[i];
        ok := executor.CheckCall([Commands.Mount, task.source] + task.options + [Join(innerRoot, task.target)], None);
        assert events[..i + 1] == events[..i] + [events[i]];
        if !ok {
          AttemptedUpToFailure(events, i, executor.failing);
          return;
        }
        assert AllSucceed(events[..i + 1], executor.failing) by {
          assert forall k :: 0 <= k < i ==> events[..i + 1][k] == events[..i][k];
        }
      }
      assert events[..|tasks|] == events;
      AttemptedAll(events, executor.failing);
      ok := true;
    }

    /** `_unmount_disk_chroot_mounts(abs_target)`. */
    method UnmountDiskChrootMounts(absTarget: string)
      modifies executor
      ensures executor.log == old(executor.log) + [Unmount(absTarget)]
    {
      executor.TryUnmounting(absTarget);
    }

    /** `_unmount_nondisk_chroot_mounts(inner_root)`: one unmount per task, in reverse task order. */
    method UnmountNondiskChrootMounts(innerRoot: string)
      modifies executor
      ensures executor.log == old(executor.log) + UnmountEvents(innerRoot, NonDiskMountTasks)
    {
      var tasks := NonDiskMountTasks;
      var events := UnmountEvents(innerRoot, tasks);
      var i := |tasks|;
      while i > 0
        invariant 0 <= i <= |tasks|
        invariant executor.log == old(executor.log) + events[..|tasks| - i]
      {
        i := i - 1;
        executor.TryUnmounting(Join(innerRoot, tasks[i].target));
        assert events[..|tasks| - i] == events[..|tasks| - i - 1] + [events[|tasks| - 1 - i]];
      }
      assert events[..|tasks|] == events;
    }

    /** The inner `try`/`finally` of the chroot stage: keyring set-up and
        pacstrap, then the non-disk unmounts whatever happened. */
    method RunInsideNondiskMounts(innerRoot: string) returns (ok: bool)
      modifies executor
      ensures var work := StageWork(innerRoot, ChrootEnv(environ));
        && executor.log == old(executor.log) + Attempted(work, executor.failing) + UnmountEvents(innerRoot, NonDiskMountTasks)
        && ok == AllSucceed(work, executor.failing)
    {
      var env := ChrootEnv(environ);
      var failing := executor.failing;
      var keyring, pacstrap := KeyringEvents(innerRoot, env), PacstrapEvent(innerRoot, PacstrapTargetRel, env);
      ok := InitializePacmanKeyring(innerRoot);
      if ok {
        AttemptedAll(keyring, failing);
        ok := RunPacstrap(innerRoot, PacstrapTargetRel);
        AllSucceedOne(pacstrap, failing);
        assert Attempted([pacstrap], failing) == [pacstrap] by {
          assert [pacstrap][1..] == [];
        }
      }
      AttemptedAppend(keyring, [pacstrap], failing);
      AllSucceedAppend(keyring, [pacstrap], failing);
      UnmountNondiskChrootMounts(innerRoot);
    }

    /** The chroot stage of `run`: mounts, keyring set-up, pacstrap and the
        unmounts, nested in their `try`/`finally` blocks. `ok` is false when
        the stage raises. */
    method RunChrootStage(innerRoot: string) returns (ok: bool)
      modifies executor
      ensures executor.log == old(executor.log) + StageEvents(executor.failing, targetDir, innerRoot, ChrootEnv(environ))
      ensures ok == AllSucceed(StageEvents(executor.failing, targetDir, innerRoot, ChrootEnv(environ)), executor.failing)
    {
      var absTarget := Join(innerRoot, PacstrapTargetRel);
      var env := ChrootEnv(environ);
      var failing := executor.failing;
      var disk, last := DiskMount(targetDir, absTarget), Unmount(absTarget);
      var mounts := MountEvents(innerRoot, NonDiskMountTasks);
      ghost var start := executor.log;
      StageSucceeds(failing, targetDir, innerRoot, env);
      StageEventsCases(failing, targetDir, innerRoot, env);
      AllSucceedOne(disk, failing);
      ok := MountDiskChrootMounts(absTarget);
      if !ok {
        return;
      }
      ok := MountNondiskChrootMounts(innerRoot);
      if ok {
        AttemptedAll(mounts, failing);
        ok := RunInsideNondiskMounts(innerRoot);
        UnmountDiskChrootMounts(absTarget);
        AppendAfter4(start, [disk], mounts,
          Attempted(StageWork(innerRoot, env), failing) + UnmountEvents(innerRoot, NonDiskMountTasks), [last]);
      } else {
        UnmountDiskChrootMounts(absTarget);
        AppendAfter3(start, [disk], Attempted(mounts, failing), [last]);
      }
    }
  }

  /** `StageEvents` in each of its three cases. */
  lemma StageEventsCases(failing: set<seq<string>>, targetDir: string, innerRoot: string, env: Env)
    ensures var absTarget := Join(innerRoot, PacstrapTargetRel);
      var disk := DiskMount(targetDir, absTarget);
      var mounts := MountEvents(innerRoot, NonDiskMountTasks);
      var s := StageEvents(failing, targetDir, innerRoot, env);
      && (Fails(disk, failing) ==> s == [disk])
      && (!Fails(disk, failing) && !AllSucceed(mounts, failing) ==>
            s == [disk] + Attempted(mounts, failing) + [Unmount(absTarget)])
      && (!Fails(disk, failing) && AllSucceed(mounts, failing) ==>
            s == [disk] + mounts
                 + (Attempted(StageWork(innerRoot, env), failing) + UnmountEvents(innerRoot, NonDiskMountTasks))
                 + [Unmount(absTarget)])
  {
  }

  /** The stage succeeds exactly when the bind mount, every non-disk mount,
      keyring set-up and pacstrap succeed: the unmounts never fail. */
  lemma StageSucceeds(failing: set<seq<string>>, targetDir: string, innerRoot: string, env: Env)
    ensures var absTarget := Join(innerRoot, PacstrapTargetRel);
      var mounts := MountEvents(innerRoot, NonDiskMountTasks);
      var work := StageWork(innerRoot, env);
      AllSucceed(StageEvents(failing, targetDir, innerRoot, env), failing) <==>
        !Fails(DiskMount(targetDir, absTarget), failing) && AllSucceed(mounts, failing) && AllSucceed(work, failing)
  {
    var absTarget := Join(innerRoot, PacstrapTargetRel);
    var mounts := MountEvents(innerRoot, NonDiskMountTasks);
    var work := StageWork(innerRoot, env);
    var s := StageEvents(failing, targetDir, innerRoot, env);
    var disk, last := [DiskMount(targetDir, absTarget)], [Unmount(absTarget)];
    var us := UnmountEvents(innerRoot, NonDiskMountTasks);
    assert AllSucceed(last, failing) && AllSucceed(us, failing);
    assert AllSucceed(disk, failing) <==> !Fails(DiskMount(targetDir, absTarget), failing) by {
      assert disk[0] == DiskMount(targetDir, absTarget);
    }
    if !Fails(DiskMount(targetDir, absTarget), failing) {
      AttemptedSucceeds(mounts, failing);
      AttemptedSucceeds(work, failing);
      if !AllSucceed(mounts, failing) {
        var att := Attempted(mounts, failing);
        assert s == disk + att + last;
        AllSucceedAppend(disk, att, failing);
        AllSucceedAppend(disk + att, last, failing);
      } else {
        var att := Attempted(work, failing);
        assert s == disk + mounts + (att + us) + last;
        assert disk + mounts + (att + us) + last == disk + mounts + att + us + last;
        AllSucceedAppend(disk, mounts, failing);
        AllSucceedAppend(disk + mounts, att, failing);
        AllSucceedAppend(disk + mounts + att, us, failing);
        AllSucceedAppend(disk + mounts + att + us, last, failing);
      }
    }
  }
}
