/**
 * The two multer configurations of the product routes: disk storage with a
 * generated filename and an image-only filter (`upload`), and memory storage
 * with no filter (`memoryUpload`). Both cap a file at 5 MiB.
 */
module Uploads {
  import opened Wrappers
  import NodePath

  /** `limits.fileSize` of both configurations: 5 MiB. */
  const MaxFileSize: nat := 5 * 1024 * 1024

  // ---------------------------------------------------------------------
  // Whitespace runs: `.replace(/\s+/g, "_")`
  // ---------------------------------------------------------------------

  /** The characters JavaScript's `\s` class matches. */
  predicate IsSpace(c: char) {
    || c == '\t' || c == '\n' || c == '\U{B}' || c == '\U{C}' || c == '\r' || c == ' '
    || c == '\U{A0}' || c == '\U{1680}' || ('\U{2000}' <= c <= '\U{200A}')
    || c == '\U{2028}' || c == '\U{2029}' || c == '\U{202F}' || c == '\U{205F}'
    || c == '\U{3000}' || c == '\U{FEFF}'
  }

  predicate SpaceFree(s: string) {
    forall i :: 0 <= i < |s| ==> !IsSpace(s[i])
  }

  /** `s` after the whitespace run it starts with. */
  function SkipSpaces(s: string): (t: string)
    ensures |t| <= |s| && t == s[|s| - |t|..]
    ensures forall i :: 0 <= i < |s| - |t| ==> IsSpace(s[i])
    ensures t == [] || !IsSpace(t[0])
  {
    if s != [] && IsSpace(s[0]) then SkipSpaces(s[1..]) else s
  }

  /**
   * The global regular-expression replacement: scanning left to right, each
   * longest run of whitespace is replaced by one '_'.
   */
  function CollapseWhitespace(s: string): (r: string)
    ensures SpaceFree(r)
    ensures |r| <= |s|
    decreases |s|
  {
    if s == [] then []
    else if IsSpace(s[0]) then "_" + CollapseWhitespace(SkipSpaces(s[1..]))
    else [s[0]] + CollapseWhitespace(s[1..])
  }

  /**
   * An independent, character-by-character reading of the same replacement:
   * a whitespace character becomes '_' when it opens a run and disappears
   * when it continues one (`afterSpace`); every other character stays.
   */
  function RunwiseFrom(s: string, afterSpace: bool): string {
    if s == [] then []
    else if !IsSpace(s[0]) then [s[0]] + RunwiseFrom(s[1..], false)
    else if afterSpace then RunwiseFrom(s[1..], true)
    else "_" + RunwiseFrom(s[1..], true)
  }

  lemma {:induction false} RunwiseSkipsRun(s: string)
    ensures RunwiseFrom(s, true) == RunwiseFrom(SkipSpaces(s), true)
    decreases |s|
  {
    if s != [] && IsSpace(s[0]) {
      RunwiseSkipsRun(s[1..]);
    }
  }

  /** Each maximal whitespace run becomes exactly one '_', and nothing else changes. */
  lemma {:induction false} CollapseIsRunwise(s: string)
    ensures CollapseWhitespace(s) == RunwiseFrom(s, false)
    decreases |s|
  {
    if s == [] {
    } else if IsSpace(s[0]) {
      var t := SkipSpaces(s[1..]);
      RunwiseSkipsRun(s[1..]);
      CollapseIsRunwise(t);
      assert RunwiseFrom(t, true) == RunwiseFrom(t, false) by {
        if t != [] { assert !IsSpace(t[0]); }
      }
    } else {
      CollapseIsRunwise(s[1..]);
    }
  }

  /** The characters of `s` that are neither whitespace nor '_', in order. */
  function Visible(s: string): string {
    if s == [] then []
    else if IsSpace(s[0]) || s[0] == '_' then Visible(s[1..])
    else [s[0]] + Visible(s[1..])
  }

  lemma {:induction false} VisibleSkipsRun(s: string)
    ensures Visible(SkipSpaces(s)) == Visible(s)
    decreases |s|
  {
    if s != [] && IsSpace(s[0]) {
      VisibleSkipsRun(s[1..]);
    }
  }

  /** The replacement keeps every other character, in its original order. */
  lemma {:induction false} CollapseKeepsVisible(s: string)
    ensures Visible(CollapseWhitespace(s)) == Visible(s)
    decreases |s|
  {
    if s == [] {
    } else if IsSpace(s[0]) {
      VisibleSkipsRun(s[1..]);
      CollapseKeepsVisible(SkipSpaces(s[1..]));
      assert Visible("_" + CollapseWhitespace(SkipSpaces(s[1..])))
          == Visible(CollapseWhitespace(SkipSpaces(s[1..])));
    } else {
      CollapseKeepsVisible(s[1..]);
      assert ([s[0]] + CollapseWhitespace(s[1..]))[1..] == CollapseWhitespace(s[1..]);
    }
  }

  /** A name without whitespace is left alone, so the replacement is idempotent. */
  lemma {:induction false} CollapseFixesSpaceFree(s: string)
    requires SpaceFree(s)
    ensures CollapseWhitespace(s) == s
    decreases |s|
  {
    if s != [] {
      assert !IsSpace(s[0]);
      CollapseFixesSpaceFree(s[1..]);
    }
  }

  // ---------------------------------------------------------------------
  // The millisecond timestamp, `${Date.now()}`
  // ---------------------------------------------------------------------

  predicate IsDigit(c: char) {
    '0' <= c <= '9'
  }

  function DigitChar(d: nat): (c: char)
    requires d < 10
    ensures IsDigit(c) && c as int - '0' as int == d
  {
    ('0' as int + d) as char
  }

  /** Decimal notation of a non-negative integer, no leading zeros. */
  function Decimal(n: nat): (r: string)
    ensures |r| > 0
    ensures forall i :: 0 <= i < |r| ==> IsDigit(r[i])
    ensures r[0] == '0' ==> n == 0
    decreases n
  {
    if n < 10 then [DigitChar(n)] else Decimal(n / 10) + [DigitChar(n % 10)]
  }

  /** The number a string of decimal digits denotes. */
  function DecimalValue(r: string): nat
    requires forall i :: 0 <= i < |r| ==> IsDigit(r[i])
  {
    if r == [] then 0
    else
      assert IsDigit(r[|r| - 1]);
      DecimalValue(r[..|r| - 1]) * 10 + (r[|r| - 1] as int - '0' as int)
  }

  lemma {:induction false} DecimalRoundTrip(n: nat)
    ensures DecimalValue(Decimal(n)) == n
    decreases n
  {
    if n >= 10 {
      DecimalRoundTrip(n / 10);
      var r := Decimal(n);
      assert r[..|r| - 1] == Decimal(n / 10);
    }
  }

  /** The longest run of digits `s` starts with. */
  function LeadingDigits(s: string): (d: string)
    ensures d <= s
    ensures forall i :: 0 <= i < |d| ==> IsDigit(d[i])
    ensures |d| < |s| ==> !IsDigit(s[|d|])
  {
    if s != [] && IsDigit(s[0]) then [s[0]] + LeadingDigits(s[1..]) else []
  }

  /** The timestamp a stored file name starts with: digits, then '_'. */
  function TimestampOf(name: string): Option<nat> {
    var d := LeadingDigits(name);
    if 0 < |d| < |name| && name[|d|] == '_' then Some(DecimalValue(d)) else None
  }

  lemma {:induction false} LeadingDigitsOf(d: string, rest: string)
    requires forall i :: 0 <= i < |d| ==> IsDigit(d[i])
    requires rest == [] || !IsDigit(rest[0])
    ensures LeadingDigits(d + rest) == d
    decreases |d|
  {
    if d != [] {
      assert (d + rest)[1..] == d[1..] + rest;
      LeadingDigitsOf(d[1..], rest);
    }
  }

  // ---------------------------------------------------------------------
  // The disk storage filename callback
  // ---------------------------------------------------------------------

  /**
   * `${Date.now()}_${base}${ext}` where `ext = path.extname(originalname)` and
   * `base = path.basename(originalname, ext).replace(/\s+/g, "_")`.
   */
  function StoredName(clock: nat, originalname: string): (r: string)
  {
    Decimal(clock) + NameAfterClock(originalname)
  }

  /** `_${base}${ext}`: everything the stored name has after the timestamp. */
  function NameAfterClock(originalname: string): (r: string)
    ensures r != [] && r[0] == '_'
  {
    var ext := NodePath.ExtName(originalname);
    "_" + CollapseWhitespace(NodePath.BaseName(originalname, ext)) + ext
  }

  /** The part of the last segment of `originalname` before its extension. */
  function Stem(originalname: string): string {
    var s, e := NodePath.Segment(originalname), NodePath.ExtName(originalname);
    if |e| <= |s| then s[..|s| - |e|] else s
  }

  /**
   * The stored name is the decimal timestamp, '_', the stem of the last path
   * segment with its whitespace runs collapsed, and the extension verbatim
   * (whitespace inside it included). Directories never reach it.
   */
  lemma StoredNameParts(clock: nat, originalname: string)
    ensures StoredName(clock, originalname)
         == Decimal(clock) + ("_" + CollapseWhitespace(Stem(originalname)) + NodePath.ExtName(originalname))
    ensures NodePath.Segment(originalname) == Stem(originalname) + NodePath.ExtName(originalname)
  {
    var s, e := NodePath.Segment(originalname), NodePath.ExtName(originalname);
    NodePath.BaseNamePlusExt(originalname);
    var b := NodePath.BaseName(originalname, e);
    assert |e| <= |s|;
    assert b == s[..|s| - |e|];
  }

  /** A stored name never holds a '/', so it stays inside the uploads directory. */
  lemma StoredNameHasNoSlash(clock: nat, originalname: string)
    ensures '/' !in StoredName(clock, originalname)
  {
    var ext := NodePath.ExtName(originalname);
    var raw := NodePath.BaseName(originalname, ext);
    NodePath.BaseNameHasNoSlash(originalname);
    CollapseAddsNoSlash(raw);
    NoSlashInJoin(Decimal(clock), CollapseWhitespace(raw), ext);
  }

  /** Collapsing whitespace introduces no '/'. */
  lemma CollapseAddsNoSlash(s: string)
    requires '/' !in s
    ensures '/' !in CollapseWhitespace(s)
  {
    var r := CollapseWhitespace(s);
    CollapseKeepsVisible(s);
    if '/' in r {
      var i :| 0 <= i < |r| && r[i] == '/';
      VisibleHas(r, i);
      VisibleFrom(s, '/');
    }
  }

  lemma NoSlashInJoin(d: string, base: string, ext: string)
    requires forall i :: 0 <= i < |d| ==> IsDigit(d[i])
    requires '/' !in base && '/' !in ext
    ensures '/' !in d + ("_" + base + ext)
  {
    var r := d + ("_" + base + ext);
    forall i | 0 <= i < |r| ensures r[i] != '/' {
      if i < |d| { assert r[i] == d[i]; }
      else if i == |d| { assert r[i] == '_'; }
      else if i < |d| + 1 + |base| { assert r[i] == base[i - |d| - 1]; }
      else { assert r[i] == ext[i - |d| - 1 - |base|]; }
    }
  }

  /** A visible character of `s` survives into `Visible(s)`. */
  lemma {:induction false} VisibleHas(s: string, i: nat)
    requires i < |s| && !IsSpace(s[i]) && s[i] != '_'
    ensures s[i] in Visible(s)
    decreases i
  {
    if i > 0 {
      VisibleHas(s[1..], i - 1);
    }
  }

  /** Everything in `Visible(s)` comes from `s`. */
  lemma {:induction false} VisibleFrom(s: string, c: char)
    requires c in Visible(s)
    ensures c in s
    decreases |s|
  {
    if s != [] && c != s[0] {
      assert c in Visible(s[1..]);
      VisibleFrom(s[1..], c);
      assert c in s[1..];
    }
  }

  /** The clock value can be read back from the front of the stored name. */
  lemma StoredNameTimestamp(clock: nat, originalname: string)
    ensures TimestampOf(StoredName(clock, originalname)) == Some(clock)
  {
    TimestampOfJoin(clock, NameAfterClock(originalname));
  }

  lemma TimestampOfJoin(clock: nat, rest: string)
    requires rest != [] && rest[0] == '_'
    ensures TimestampOf(Decimal(clock) + rest) == Some(clock)
  {
    var d := Decimal(clock);
    LeadingDigitsOf(d, rest);
    DecimalRoundTrip(clock);
    assert (d + rest)[|d|] == '_';
  }

  /** A run of whitespace is skipped up to the first non-whitespace character. */
  lemma {:induction false} SkipSpacesOverRun(run: string, b: string)
    requires forall i :: 0 <= i < |run| ==> IsSpace(run[i])
    requires b == [] || !IsSpace(b[0])
    ensures SkipSpaces(run + b) == b
    decreases |run|
  {
    if run != [] {
      assert (run + b)[0] == run[0];
      assert (run + b)[1..] == run[1..] + b;
      SkipSpacesOverRun(run[1..], b);
    } else {
      assert run + b == b;
    }
  }

  /** A leading whitespace run becomes one '_' in front of the rest. */
  lemma CollapseLeadingRun(run: string, b: string)
    requires run != [] && forall i :: 0 <= i < |run| ==> IsSpace(run[i])
    requires b == [] || !IsSpace(b[0])
    ensures CollapseWhitespace(run + b) == "_" + CollapseWhitespace(b)
  {
    var s := run + b;
    assert IsSpace(s[0]) by { assert s[0] == run[0]; }
    assert s[1..] == run[1..] + b;
    SkipSpacesOverRun(run[1..], b);
    assert SkipSpaces(s[1..]) == b;
  }

  /** A leading non-whitespace character is kept as it is. */
  lemma CollapseKeepsHead(c: char, t: string)
    requires !IsSpace(c)
    ensures CollapseWhitespace([c] + t) == [c] + CollapseWhitespace(t)
  {
    assert ([c] + t)[1..] == t;
  }

  /**
   * Two whitespace-free words separated by any non-empty whitespace run are
   * joined by exactly one '_' (so "my  cat" becomes "my_cat").
   */
  lemma {:induction false} CollapseJoinsWords(a: string, run: string, b: string)
    requires SpaceFree(a) && SpaceFree(b)
    requires run != [] && forall i :: 0 <= i < |run| ==> IsSpace(run[i])
    ensures CollapseWhitespace(a + run + b) == a + "_" + b
    decreases |a|
  {
    if a == [] {
      assert a + run + b == run + b;
      assert b == [] || !IsSpace(b[0]);
      CollapseLeadingRun(run, b);
      CollapseFixesSpaceFree(b);
    } else {
      var rest := a[1..] + run + b;
      assert a + run + b == [a[0]] + rest;
      assert !IsSpace(a[0]);
      CollapseKeepsHead(a[0], rest);
      CollapseJoinsWords(a[1..], run, b);
      assert a + "_" + b == [a[0]] + (a[1..] + "_" + b);
    }
  }

  // ---------------------------------------------------------------------
  // The disk upload's fileFilter
  // ---------------------------------------------------------------------

  /** `t` occurs in `s` at position `i`. */
  predicate OccursAt(s: string, i: nat, t: string) {
    i + |t| <= |s| && s[i..i + |t|] == t
  }

  /** The alternation `(png|jpe?g|webp|gif)` matches at position `j` of `m`. */
  predicate SubtypeAt(m: string, j: nat) {
    || OccursAt(m, j, "png")
    || (OccursAt(m, j, "jp") && (OccursAt(m, j + 2, "eg") || OccursAt(m, j + 2, "g")))
    || OccursAt(m, j, "webp")
    || OccursAt(m, j, "gif")
  }

  /** `/image\/(png|jpe?g|webp|gif)/` matches starting at position `i`. */
  predicate ImagePatternAt(m: string, i: nat) {
    OccursAt(m, i, "image/") && SubtypeAt(m, i + 6)
  }

  /** `RegExp.prototype.test`: unanchored, so a match anywhere counts. */
  predicate ImagePatternFound(m: string) {
    exists i: nat | i <= |m| :: ImagePatternAt(m, i)
  }

  /** The fileFilter's condition: the wildcard image type exactly, or the pattern occurs. */
  predicate AcceptsImage(mimetype: string) {
    mimetype == "image/*" || ImagePatternFound(mimetype)
  }

  predicate Contains(s: string, t: string) {
    exists i: nat | i <= |s| :: OccursAt(s, i, t)
  }

  lemma OccursAtSplit(s: string, i: nat, a: string, b: string)
    ensures OccursAt(s, i, a + b) <==> OccursAt(s, i, a) && OccursAt(s, i + |a|, b)
  {
    if OccursAt(s, i, a) && OccursAt(s, i + |a|, b) {
      assert s[i..i + |a + b|] == s[i..i + |a|] + s[i + |a|..i + |a| + |b|];
    }
    if OccursAt(s, i, a + b) {
      assert s[i..i + |a|] == (a + b)[..|a|];
      assert s[i + |a|..i + |a| + |b|] == (a + b)[|a|..];
    }
  }

  /** At one position, the pattern matches exactly when one of the five literal types starts there. */
  lemma ImagePatternAtExactly(m: string, i: nat)
    ensures ImagePatternAt(m, i) <==>
      || OccursAt(m, i, "image/png") || OccursAt(m, i, "image/jpg") || OccursAt(m, i, "image/jpeg")
      || OccursAt(m, i, "image/webp") || OccursAt(m, i, "image/gif")
  {
    OccursAtSplit(m, i, "image/", "png");
    OccursAtSplit(m, i, "image/", "jpg");
    OccursAtSplit(m, i, "image/", "jpeg");
    OccursAtSplit(m, i, "image/", "webp");
    OccursAtSplit(m, i, "image/", "gif");
    OccursAtSplit(m, i + 6, "jp", "g");
    OccursAtSplit(m, i + 6, "jp", "eg");
    assert "image/png" == "image/" + "png";
    assert "image/jpg" == "image/" + "jpg";
    assert "image/jpeg" == "image/" + "jpeg";
    assert "image/webp" == "image/" + "webp";
    assert "image/gif" == "image/" + "gif";
    assert "jpg" == "jp" + "g";
    assert "jpeg" == "jp" + "eg";
  }

  /**
   * The filter accepts a mimetype exactly when it is the wildcard image type or contains
   * one of "image/png", "image/jpg", "image/jpeg", "image/webp", "image/gif"
   * as a case-sensitive substring.
   */
  lemma AcceptsImageExactly(m: string)
    ensures AcceptsImage(m) <==>
      || m == "image/*"
      || Contains(m, "image/png") || Contains(m, "image/jpg") || Contains(m, "image/jpeg")
      || Contains(m, "image/webp") || Contains(m, "image/gif")
  {
    forall i: nat | i <= |m|
      ensures ImagePatternAt(m, i) <==>
        || OccursAt(m, i, "image/png") || OccursAt(m, i, "image/jpg") || OccursAt(m, i, "image/jpeg")
        || OccursAt(m, i, "image/webp") || OccursAt(m, i, "image/gif")
    {
      ImagePatternAtExactly(m, i);
    }
  }

  /** "text/plain" is refused. */
  lemma RefusesTextPlain()
    ensures !AcceptsImage("text/plain")
  {
    var m := "text/plain";
    forall i: nat | i <= |m| ensures !ImagePatternAt(m, i) {
      if i + 6 <= |m| { assert m[i..i + 6][0] == m[i] != 'i'; }
    }
  }

  /** The match is case-sensitive: "IMAGE/PNG" is refused. */
  lemma RefusesUpperCase()
    ensures !AcceptsImage("IMAGE/PNG")
  {
    var m := "IMAGE/PNG";
    forall i: nat | i <= |m| ensures !ImagePatternAt(m, i) {
      if i + 6 <= |m| { assert m[i..i + 6][0] == m[i] != 'i'; }
    }
  }

  /** The match is unanchored: "x image/gif" is accepted. */
  lemma AcceptsUnanchored()
    ensures AcceptsImage("x image/gif")
  {
    assert ImagePatternAt("x image/gif", 2);
  }

  // ---------------------------------------------------------------------
  // What multer hands to a handler
  // ---------------------------------------------------------------------

  /** The file part of a multipart request (field `image`). */
  datatype IncomingFile = IncomingFile(originalname: string, mimetype: string, size: nat)

  /** Why multer refused the request before the handler ran. */
  datatype UploadError = NotAnImage(mimetype: string) | FileTooLarge

  /** What multer passes on: the (optional) file, or a refusal. */
  datatype Received<T> = Received(file: Option<T>) | Refused(error: UploadError)

  /**
   * The `upload` configuration: the fileFilter runs first, then the size
   * limit, then the file is stored under the name the filename callback
   * builds from the clock at upload time. The handler sees that name.
   */
  function DiskUpload(file: Option<IncomingFile>, clock: nat): (r: Received<string>)
    ensures file.None? ==> r == Received(None)
    ensures file.Some? && !AcceptsImage(file.value.mimetype) ==> r == Refused(NotAnImage(file.value.mimetype))
    ensures file.Some? && AcceptsImage(file.value.mimetype) && file.value.size > MaxFileSize ==> r == Refused(FileTooLarge)
    ensures file.Some? && AcceptsImage(file.value.mimetype) && file.value.size <= MaxFileSize ==>
      r == Received(Some(StoredName(clock, file.value.originalname)))
    ensures r.Received? && r.file.Some? ==>
      && file.Some? && AcceptsImage(file.value.mimetype) && file.value.size <= MaxFileSize
      && '/' !in r.file.value
      && TimestampOf(r.file.value) == Some(clock)
  {
    match file
    case None => Received(None)
    case Some(f) =>
      if !AcceptsImage(f.mimetype) then Refused(NotAnImage(f.mimetype))
      else if f.size > MaxFileSize then Refused(FileTooLarge)
      else
        StoredNameHasNoSlash(clock, f.originalname);
        StoredNameTimestamp(clock, f.originalname);
        Received(Some(StoredName(clock, f.originalname)))
  }

  /**
   * The `memoryUpload` configuration: no fileFilter at all, only the size
   * limit; the handler sees the file itself.
   */
  function MemoryUpload(file: Option<IncomingFile>): (r: Received<IncomingFile>)
    ensures r.Refused? <==> file.Some? && file.value.size > MaxFileSize
    ensures r.Refused? ==> r.error == FileTooLarge
    ensures r.Received? ==> r.file == file
  {
    match file
    case None => Received(None)
    case Some(f) => if f.size > MaxFileSize then Refused(FileTooLarge) else Received(file)
  }
}
