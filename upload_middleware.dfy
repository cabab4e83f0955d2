/**
 * The multer configuration of the upload middleware: the MIME-type
 * allow-list, the 5 MiB ceiling, the stored-name builder and the
 * resulting admission decision for the single `file` field.
 *
 * The clock (`Date.now()`), the random source (`Math.random()`) and
 * `path.extname` are parameters; directory creation and disk writes are
 * not modelled.
 */
module UploadMiddleware {
  import opened Wrappers
  import opened Strings

  /** The allowed MIME-type prefixes, in the order the filter tries them. */
  const AllowedTypes: seq<string> := [
    "image/",
    "application/pdf",
    "application/msword",
    "application/vnd.openxmlformats-officedocument.wordprocessingml.document"
  ]

  /** multer's `limits.fileSize`: 5 MiB. */
  const MaxFileSize: nat := 1024 * 1024 * 5

  /** A file part as multer sees it before the filter runs. */
  datatype IncomingFile = IncomingFile(originalname: string, mimetype: string, size: nat)

  /** `req.file` as the route handler receives it after disk storage. */
  datatype UploadedFile = UploadedFile(
    originalname: string,
    mimetype: string,
    size: nat,
    filename: string,
    path: string)

  /** What multer hands on: the route runs with `req.file` set or unset, or the size limit fires. */
  datatype Admission = Forwarded(file: Option<UploadedFile>) | FileTooLarge

  /** `types.some(type => s.startsWith(type))`. */
  function SomeStartsWith(types: seq<string>, s: string): (r: bool)
    ensures r <==> exists i :: 0 <= i < |types| && StartsWith(s, types[i])
  {
    if types == [] then false
    else if StartsWith(s, types[0]) then true
    else
      var r := SomeStartsWith(types[1..], s);
      assert forall i :: 1 <= i < |types| ==> types[i] == types[1..][i - 1];
      r
  }

  /**
   * The file filter: accept exactly the files whose declared mimetype
   * starts with one of the four allowed prefixes. A rejected file is
   * skipped (`cb(null, false)`), not reported as an error.
   */
  function FileFilter(file: IncomingFile): (accept: bool)
    ensures accept <==>
      || StartsWith(file.mimetype, "image/")
      || StartsWith(file.mimetype, "application/pdf")
      || StartsWith(file.mimetype, "application/msword")
      || StartsWith(file.mimetype, "application/vnd.openxmlformats-officedocument.wordprocessingml.document")
  {
    var accept := SomeStartsWith(AllowedTypes, file.mimetype);
    var m, ts := file.mimetype, AllowedTypes;
    assert SomeStartsWith(ts, m) == (StartsWith(m, ts[0]) || SomeStartsWith(ts[1..], m));
    assert SomeStartsWith(ts[1..], m) == (StartsWith(m, ts[1]) || SomeStartsWith(ts[2..], m)) by {
      assert ts[1..][0] == ts[1] && ts[1..][1..] == ts[2..];
    }
    assert SomeStartsWith(ts[2..], m) == (StartsWith(m, ts[2]) || SomeStartsWith(ts[3..], m)) by {
      assert ts[2..][0] == ts[2] && ts[2..][1..] == ts[3..];
    }
    assert SomeStartsWith(ts[3..], m) == StartsWith(m, ts[3]) by {
      assert ts[3..][0] == ts[3] && ts[3..][1..] == [];
    }
    accept
  }

  /** multer lets a file through its limit when it has at most `MaxFileSize` bytes. */
  predicate WithinSizeLimit(size: nat) {
    size <= MaxFileSize
  }

  /** The ceiling is 5 MiB: a file of exactly 5242880 bytes is within it, one byte more is not. */
  lemma SizeCeiling(size: nat)
    ensures WithinSizeLimit(size) <==> size <= 5242880
    ensures WithinSizeLimit(5242880) && !WithinSizeLimit(5242881)
  {
  }

  /** `Math.round(u * 1E9)` for a value `u` of `Math.random()`, over the reals. */
  function RandomSuffix(u: real): (r: nat)
    requires 0.0 <= u < 1.0
    ensures r <= 1000000000
    ensures (r as real) - 0.5 <= u * 1000000000.0 < (r as real) + 0.5
  {
    (u * 1000000000.0 + 0.5).Floor
  }

  /** `path.extname` results: empty, or starting with a dot. */
  predicate IsExtension(ext: string) {
    ext == [] || ext[0] == '.'
  }

  /**
   * The disk name `Date.now() + '-' + random + path.extname(originalname)`:
   * the timestamp's digits, a dash, and a name that ends with the given extension.
   */
  function StoredName(timestamp: nat, random: nat, ext: string): (name: string)
    ensures StartsWith(name, Decimal(timestamp)) && |name| > |Decimal(timestamp)| && name[|Decimal(timestamp)|] == '-'
    ensures EndsWith(name, ext)
  {
    assert Decimal(timestamp) + "-" + Decimal(random) + ext
      == Decimal(timestamp) + (['-'] + Decimal(random) + ext);
    Decimal(timestamp) + "-" + Decimal(random) + ext
  }

  /**
   * Splits a stored name back into its timestamp, random number and
   * extension, or `None` when the name does not have that shape.
   */
  function ParseStoredName(name: string): Option<(nat, nat, string)> {
    var k := LeadingDigits(name);
    if k == 0 || k == |name| || name[k] != '-' then None
    else
      var rest := name[k + 1..];
      var j := LeadingDigits(rest);
      if j == 0 || !IsExtension(rest[j..]) then None
      else Some((ParseDecimal(name[..k]), ParseDecimal(rest[..j]), rest[j..]))
  }

  /** Every stored name can be read back into the values it was built from. */
  lemma StoredNameRoundTrip(timestamp: nat, random: nat, ext: string)
    requires IsExtension(ext)
    ensures ParseStoredName(StoredName(timestamp, random, ext)) == Some((timestamp, random, ext))
  {
    var t, r := Decimal(timestamp), Decimal(random);
    assert StoredName(timestamp, random, ext) == t + ['-'] + (r + ext);
    ParseDigitsDashDigits(t, r, ext);
    ParseDecimalOfDecimal(timestamp);
    ParseDecimalOfDecimal(random);
  }

  /** A digit run, a dash, a digit run and an extension parse back into their parts. */
  lemma ParseDigitsDashDigits(t: string, r: string, ext: string)
    requires |t| > 0 && AllDigits(t) && |r| > 0 && AllDigits(r) && IsExtension(ext)
    ensures ParseStoredName(t + ['-'] + (r + ext)) == Some((ParseDecimal(t), ParseDecimal(r), ext))
  {
    var rest := r + ext;
    var name := t + ['-'] + rest;
    assert LeadingDigits(name) == |t| && name[..|t|] == t && name[|t|] == '-' && name[|t| + 1..] == rest by {
      SplitAround(t, '-', rest);
      LeadingDigitsOfDigitsThen(t, ['-'] + rest);
      assert t + (['-'] + rest) == name;
    }
    assert LeadingDigits(rest) == |r| && rest[..|r|] == r && rest[|r|..] == ext by {
      LeadingDigitsOfDigitsThen(r, ext);
    }
  }

  lemma SplitAround(a: string, c: char, b: string)
    ensures var s := a + [c] + b; s[..|a|] == a && s[|a|] == c && s[|a| + 1..] == b
  {
  }

  /** Two uploads share a stored name only if they share the timestamp, the random number and the extension. */
  lemma StoredNameInjective(t1: nat, r1: nat, e1: string, t2: nat, r2: nat, e2: string)
    requires IsExtension(e1) && IsExtension(e2)
    requires StoredName(t1, r1, e1) == StoredName(t2, r2, e2)
    ensures t1 == t2 && r1 == r2 && e1 == e2
  {
    StoredNameRoundTrip(t1, r1, e1);
    StoredNameRoundTrip(t2, r2, e2);
  }

  /**
   * `upload.single('file')` for one request: the filter decides first and a
   * rejected or absent file leaves `req.file` unset; an accepted file is
   * written under its stored name and reaches the route, unless it exceeds
   * the size limit, which ends the request with multer's error instead.
   */
  function SingleFile(part: Option<IncomingFile>, dir: string, now: nat, u: real, ext: string): (a: Admission)
    requires 0.0 <= u < 1.0 && IsExtension(ext)
    ensures a == Forwarded(None) <==> part.None? || !FileFilter(part.value)
    ensures a == FileTooLarge <==> part.Some? && FileFilter(part.value) && !WithinSizeLimit(part.value.size)
    ensures a.Forwarded? && a.file.Some? ==>
      && part.Some? && FileFilter(part.value) && WithinSizeLimit(part.value.size)
      && a.file.value.originalname == part.value.originalname
      && a.file.value.mimetype == part.value.mimetype
      && a.file.value.size == part.value.size
      && a.file.value.filename == StoredName(now, RandomSuffix(u), ext)
      && a.file.value.path == dir + "/" + a.file.value.filename
  {
    match part
    case None => Forwarded(None)
    case Some(f) =>
      if !FileFilter(f) then Forwarded(None)
      else if !WithinSizeLimit(f.size) then FileTooLarge
      else
        var name := StoredName(now, RandomSuffix(u), ext);
        Forwarded(Some(UploadedFile(f.originalname, f.mimetype, f.size, name, dir + "/" + name)))
  }

  /** The verdict depends on the mimetype alone: the name and size of the file play no part. */
  lemma FilterIgnoresNameAndSize(f1: IncomingFile, f2: IncomingFile)
    requires f1.mimetype == f2.mimetype
    ensures FileFilter(f1) == FileFilter(f2)
  {
  }

  /** Matching is by prefix: every `image/` subtype, and even `application/pdfx`, is accepted. */
  lemma PrefixNotEquality(name: string, size: nat, subtype: string)
    ensures FileFilter(IncomingFile(name, "image/" + subtype, size))
    ensures FileFilter(IncomingFile(name, "application/pdfx", size))
  {
    assert ("image/" + subtype)[..6] == "image/";
    assert "application/pdfx"[..15] == "application/pdf";
  }

  /**
   * The `.exe` and `.txt` types of the rejection tests are not on the
   * allow-list. Both types a client may declare for an `.exe`
   * (`application/x-msdownload`, `application/x-msdos-program`) are covered.
   */
  lemma ExeAndTextRejected(name: string, size: nat)
    ensures !FileFilter(IncomingFile(name, "application/x-msdownload", size))
    ensures !FileFilter(IncomingFile(name, "application/x-msdos-program", size))
    ensures !FileFilter(IncomingFile(name, "text/plain", size))
  {
    var exe := "application/x-msdownload";
    var dos := "application/x-msdos-program";
    assert exe[..6][0] == 'a' && dos[..6][0] == 'a' && "text/plain"[..6][0] == 't';
    assert exe[..15][12] == 'x' && dos[..15][12] == 'x' && "application/pdf"[12] == 'p';
    assert exe[..18][12] == 'x' && dos[..18][12] == 'x' && "application/msword"[12] == 'm';
  }

  /** A rejected type never reaches the route, whatever its size: the filter runs before the limit. */
  lemma RejectedTypeNeverForwarded(f: IncomingFile, dir: string, now: nat, u: real, ext: string)
    requires 0.0 <= u < 1.0 && IsExtension(ext)
    requires !FileFilter(f)
    ensures SingleFile(Some(f), dir, now, u, ext) == Forwarded(None)
  {
  }

  /**
   * The size scenarios: a 6 MiB `.txt` file is skipped by the filter before
   * its size matters, a 6 MiB image is stopped by the limit, and a PDF of
   * exactly 5 MiB passes.
   */
  lemma SizeCeilingScenarios(dir: string, now: nat, u: real, ext: string)
    requires 0.0 <= u < 1.0 && IsExtension(ext)
    ensures SingleFile(Some(IncomingFile("large.txt", "text/plain", 6 * 1024 * 1024)), dir, now, u, ext)
      == Forwarded(None)
    ensures SingleFile(Some(IncomingFile("big.png", "image/png", 6 * 1024 * 1024)), dir, now, u, ext)
      == FileTooLarge
    ensures SingleFile(Some(IncomingFile("a.pdf", "application/pdf", MaxFileSize)), dir, now, u, ext)
      .file.Some?
  {
    ExeAndTextRejected("large.txt", 6 * 1024 * 1024);
    PrefixNotEquality("big.png", 6 * 1024 * 1024, "png");
    assert "image/" + "png" == "image/png";
    assert "application/pdf"[..15] == "application/pdf";
  }
}
