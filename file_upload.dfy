/**
 * The upload intake rules: the MIME-type and size tables, classification,
 * stored-name generation, the destination directory, the content-length
 * check, the uploaders' size limits, directory provisioning, file removal
 * and the public URL of a stored file.
 */
module FileUpload {
  import opened Wrappers
  import opened Encoding
  import opened JsText
  import opened NodePath
  import ErrorHandler

  // ---------------------------------------------------------------------
  // The configuration tables
  // ---------------------------------------------------------------------

  /** The keys of both tables. */
  datatype Category = Images | Documents | Csv

  /** A category's key, which is also the name of its directory. */
  function CategoryName(c: Category): string {
    match c
    case Images => "images"
    case Documents => "documents"
    case Csv => "csv"
  }

  /**
   * The MIME type of a Word (`.docx`) document.  It is written as two
   * literals because the verifier reasons about one long literal far less
   * cheaply.
   */
  const WordDocumentType := "application/" + "vnd.openxmlformats-officedocument.wordprocessingml.document"

  /** A category's list in the table of allowed MIME types; no list is empty. */
  function MimeTypes(c: Category): (types: seq<string>)
    ensures |types| >= 1
  {
    match c
    case Images => ["image/jpeg", "image/png", "image/gif", "image/webp"]
    case Documents => ["application/pdf", "application/msword", WordDocumentType]
    case Csv => ["text/csv"]
  }

  datatype Entry = Entry(category: Category, mimeTypes: seq<string>)

  /** The table of allowed MIME types, in declaration order, which is the order it is scanned in. */
  const AllowedFileTypes: seq<Entry> :=
    [Entry(Images, MimeTypes(Images)), Entry(Documents, MimeTypes(Documents)), Entry(Csv, MimeTypes(Csv))]

  const MiB: nat := 1024 * 1024

  /** The table of maximum sizes in bytes. */
  function MaxFileSize(c: Category): (n: nat)
    ensures n > 0 && n % MiB == 0
  {
    match c
    case Images => 5 * MiB
    case Documents => 10 * MiB
    case Csv => 2 * MiB
  }

  // ---------------------------------------------------------------------
  // Classification
  // ---------------------------------------------------------------------

  /** Entry `j` is the first one of `table` whose list holds `mimetype`. */
  predicate IsFirstMatch(table: seq<Entry>, mimetype: string, j: nat) {
    j < |table| && mimetype in table[j].mimeTypes
    && forall k :: 0 <= k < j ==> mimetype !in table[k].mimeTypes
  }

  /** The category of the first entry whose list holds `mimetype`. */
  function FirstIn(table: seq<Entry>, mimetype: string): (r: Option<Category>)
    ensures r.None? <==> forall j :: 0 <= j < |table| ==> mimetype !in table[j].mimeTypes
    ensures r.Some? ==> exists j: nat :: IsFirstMatch(table, mimetype, j) && table[j].category == r.value
  {
    if table == [] then None
    else if mimetype in table[0].mimeTypes then
      assert IsFirstMatch(table, mimetype, 0);
      Some(table[0].category)
    else
      var r := FirstIn(table[1..], mimetype);
      assert forall j :: 1 <= j < |table| ==> table[j] == table[1..][j - 1];
      if r.Some? then
        var j: nat :| IsFirstMatch(table[1..], mimetype, j) && table[1..][j].category == r.value;
        assert IsFirstMatch(table, mimetype, j + 1);
        r
      else
        r
  }

  /** `getFileType` as a specification: `None` stands for `null`. */
  function Classify(mimetype: string): (r: Option<Category>)
    ensures r.Some? ==> mimetype in MimeTypes(r.value)
  {
    FirstIn(AllowedFileTypes, mimetype)
  }

  /** `getFileType`: scans the table in order and returns at the first list that holds the type. */
  method GetFileType(mimetype: string) returns (fileType: Option<Category>)
    ensures fileType == Classify(mimetype)
  {
    var i := 0;
    while i < |AllowedFileTypes|
      invariant 0 <= i <= |AllowedFileTypes|
      invariant FirstIn(AllowedFileTypes[i..], mimetype) == Classify(mimetype)
    {
      var entry := AllowedFileTypes[i];
      assert AllowedFileTypes[i..][1..] == AllowedFileTypes[i + 1..];
      if mimetype in entry.mimeTypes {
        return Some(entry.category);
      }
      i := i + 1;
    }
    return None;
  }

  /** The lists are disjoint, so a listed type is classified as exactly its own category. */
  lemma ClassifyExact(mimetype: string, c: Category)
    ensures Classify(mimetype) == Some(c) <==> mimetype in MimeTypes(c)
  {
    var r := Classify(mimetype);
    if r.Some? {
      var j: nat :| IsFirstMatch(AllowedFileTypes, mimetype, j) && AllowedFileTypes[j].category == r.value;
      assert mimetype in MimeTypes(r.value);
      if mimetype in MimeTypes(c) {
        MimeTypesDisjoint(mimetype, c, r.value);
      }
    } else {
      assert mimetype !in AllowedFileTypes[0].mimeTypes;
      assert mimetype !in AllowedFileTypes[1].mimeTypes;
      assert mimetype !in AllowedFileTypes[2].mimeTypes;
    }
  }

  /** No type is listed under two categories: their first letters differ. */
  lemma MimeTypesDisjoint(mimetype: string, c: Category, d: Category)
    requires mimetype in MimeTypes(c) && mimetype in MimeTypes(d)
    ensures c == d
  {
    MimeTypeInitial(mimetype, c);
    MimeTypeInitial(mimetype, d);
  }

  lemma MimeTypeInitial(mimetype: string, c: Category)
    requires mimetype in MimeTypes(c)
    ensures |mimetype| > 0
    ensures mimetype[0] == match c case Images => 'i' case Documents => 'a' case Csv => 't'
  {
    var types := MimeTypes(c);
    var k :| 0 <= k < |types| && types[k] == mimetype;
    match c
    case Images =>
      assert types[0][0] == 'i' && types[1][0] == 'i' && types[2][0] == 'i' && types[3][0] == 'i';
    case Documents =>
      assert types[0][0] == 'a' && types[1][0] == 'a' && types[2][0] == 'a';
    case Csv =>
      assert types[0][0] == 't';
  }

  /** Classification fails exactly for the types that no list holds. */
  lemma ClassifyNone(mimetype: string)
    ensures Classify(mimetype).None? <==> forall c: Category :: mimetype !in MimeTypes(c)
  {
    forall c: Category ensures Classify(mimetype) == Some(c) <==> mimetype in MimeTypes(c) {
      ClassifyExact(mimetype, c);
    }
  }

  // ---------------------------------------------------------------------
  // Stored file names
  // ---------------------------------------------------------------------

  const MaxBaseLength: nat := 20
  const RandomByteCount: nat := 8

  /** The extension a stored name ends with: the original's, lower-cased. */
  function StoredExtension(originalname: string): (ext: string)
    ensures ext == [] || (ext[0] == '.' && '.' !in ext[1..])
    ensures '/' !in ext
  {
    var raw := ExtName(originalname);
    ToLowerCaseKeeps(raw, '/');
    if raw != [] then ToLowerCaseKeeps(raw[1..], '.'); ToLowerCase(raw) else ""
  }

  /**
   * The sanitised base: the original name with the lower-cased extension
   * cut off (only where it matches exactly), every character outside
   * `[A-Za-z0-9]` replaced by `-`, and the result cut to 20 characters.
   */
  function SanitizedBase(originalname: string): (base: string)
    ensures |base| <= MaxBaseLength
    ensures forall i :: 0 <= i < |base| ==> IsAlphanumeric(base[i]) || base[i] == '-'
  {
    var replaced := ReplaceNonAlphanumeric(BaseName(originalname, StoredExtension(originalname)));
    var base := Substring(replaced, MaxBaseLength);
    assert forall i :: 0 <= i < |base| ==> base[i] == replaced[i];
    base
  }

  /**
   * `generateSecureFilename`: the sanitised base, `-`, the timestamp in
   * decimal, `-`, the random bytes in hex, and the lower-cased extension.
   */
  function SecureFilename(originalname: string, timestamp: nat, random: seq<byte>): (name: string)
    requires |random| == RandomByteCount
    ensures ExtensionOf(name) == StoredExtension(originalname)
  {
    var base, dec, hex, ext := SanitizedBase(originalname), Decimal(timestamp), Hex(random), StoredExtension(originalname);
    StemCharacters(base, dec, hex);
    ExtensionOfAppend(base + "-" + dec + "-" + hex, ext);
    base + "-" + dec + "-" + hex + ext
  }

  /** The parts a stored name is made of. */
  datatype StoredName = StoredName(base: string, timestamp: nat, random: seq<byte>, extension: string)

  /** The text from the last `.` of a name on, or the empty string when there is none. */
  function ExtensionOf(name: string): (ext: string)
    ensures |ext| <= |name| && name[|name| - |ext|..] == ext
  {
    match LastIndexOf(name, '.')
    case None => ""
    case Some(d) => name[d..]
  }

  /** Reads `base-decimal-hex` from the right: 16 hex digits after a `-`, then the front before them. */
  function ParseStem(stem: string): Option<(string, nat, seq<byte>)> {
    var n := 2 * RandomByteCount;
    if |stem| < n + 1 || stem[|stem| - n - 1] != '-' || !AllLowerHex(stem[|stem| - n..]) then None
    else ParseFront(stem[..|stem| - n - 1], UnHex(stem[|stem| - n..]))
  }

  /** Reads `base-decimal`: the digits after the last `-`, and the base before it. */
  function ParseFront(front: string, random: seq<byte>): Option<(string, nat, seq<byte>)> {
    match LastIndexOf(front, '-')
    case None => None
    case Some(k) =>
      var digits := front[k + 1..];
      if digits == [] || !AllDigits(digits) then None
      else Some((front[..k], DecimalValue(digits), random))
  }

  /** Reads a stored name back: the extension from the last `.`, then the stem before it. */
  function ParseStoredName(name: string): (r: Option<StoredName>)
    ensures r.Some? ==> |r.value.random| == RandomByteCount
    ensures r.Some? ==> |r.value.extension| <= |name| && name[|name| - |r.value.extension|..] == r.value.extension
  {
    var ext := ExtensionOf(name);
    match ParseStem(name[..|name| - |ext|])
    case None => None
    case Some((base, timestamp, random)) => Some(StoredName(base, timestamp, random, ext))
  }

  lemma ExtensionOfAppend(stem: string, ext: string)
    requires '.' !in stem
    requires ext == [] || (ext[0] == '.' && '.' !in ext[1..])
    ensures ExtensionOf(stem + ext) == ext
  {
    if ext == [] {
      assert stem + ext == stem;
    } else {
      assert stem + ext == stem + ['.'] + ext[1..];
      LastIndexOfMark(stem, '.', ext[1..]);
    }
  }

  lemma ParseStemFormatted(base: string, dec: string, hex: string)
    requires '-' !in dec && dec != [] && AllDigits(dec)
    requires |hex| == 2 * RandomByteCount && AllLowerHex(hex)
    ensures ParseStem(base + "-" + dec + "-" + hex) == Some((base, DecimalValue(dec), UnHex(hex)))
  {
    var front := base + "-" + dec;
    ParseStemSplit(front, hex);
    ParseFrontFormatted(base, dec, UnHex(hex));
  }

  lemma ParseStemSplit(front: string, hex: string)
    requires |hex| == 2 * RandomByteCount && AllLowerHex(hex)
    ensures ParseStem(front + "-" + hex) == ParseFront(front, UnHex(hex))
  {
    var stem := front + "-" + hex;
    var n := 2 * RandomByteCount;
    assert stem[|stem| - n - 1] == '-';
    assert stem[|stem| - n..] == hex;
    assert stem[..|stem| - n - 1] == front;
  }

  lemma ParseFrontFormatted(base: string, dec: string, random: seq<byte>)
    requires '-' !in dec && dec != [] && AllDigits(dec)
    ensures ParseFront(base + "-" + dec, random) == Some((base, DecimalValue(dec), random))
  {
    var front := base + "-" + dec;
    assert front == base + ['-'] + dec;
    LastIndexOfMark(base, '-', dec);
    assert front[|base| + 1..] == dec;
    assert front[..|base|] == base;
  }

  /** A stored name's stem (everything before the extension) is in `[A-Za-z0-9-]`. */
  lemma StemCharacters(base: string, dec: string, hex: string)
    requires forall i :: 0 <= i < |base| ==> IsAlphanumeric(base[i]) || base[i] == '-'
    requires AllDigits(dec) && AllLowerHex(hex)
    ensures var stem := base + "-" + dec + "-" + hex;
            forall i :: 0 <= i < |stem| ==> IsAlphanumeric(stem[i]) || stem[i] == '-'
  {
    var stem := base + "-" + dec + "-" + hex;
    forall i | 0 <= i < |stem| ensures IsAlphanumeric(stem[i]) || stem[i] == '-' {
      if i < |base| {
        assert stem[i] == base[i];
      } else if |base| < i < |base| + 1 + |dec| {
        assert stem[i] == dec[i - |base| - 1];
      } else if |base| + 1 + |dec| < i {
        assert stem[i] == hex[i - |base| - |dec| - 2];
      }
    }
  }

  /** A generated name determines its base, timestamp, random bytes and extension. */
  lemma SecureFilenameParses(originalname: string, timestamp: nat, random: seq<byte>)
    requires |random| == RandomByteCount
    ensures ParseStoredName(SecureFilename(originalname, timestamp, random))
            == Some(StoredName(SanitizedBase(originalname), timestamp, random, StoredExtension(originalname)))
  {
    var base, dec, hex, ext := SanitizedBase(originalname), Decimal(timestamp), Hex(random), StoredExtension(originalname);
    var stem := base + "-" + dec + "-" + hex;
    var name := stem + ext;
    assert name == SecureFilename(originalname, timestamp, random);
    StemCharacters(base, dec, hex);
    ExtensionOfAppend(stem, ext);
    assert name[..|name| - |ext|] == stem;
    assert '-' !in dec by {
      assert forall i :: 0 <= i < |dec| ==> IsDigit(dec[i]);
    }
    ParseStemFormatted(base, dec, hex);
    DecimalRoundTrip(timestamp);
    HexRoundTrip(random);
  }

  /**
   * Two generated names are equal only when their timestamps, random bytes,
   * bases and extensions are: a name is as unique as its timestamp and
   * random bytes.
   */
  lemma SecureFilenameInjective(o1: string, t1: nat, r1: seq<byte>, o2: string, t2: nat, r2: seq<byte>)
    requires |r1| == RandomByteCount && |r2| == RandomByteCount
    requires SecureFilename(o1, t1, r1) == SecureFilename(o2, t2, r2)
    ensures t1 == t2 && r1 == r2
    ensures SanitizedBase(o1) == SanitizedBase(o2) && StoredExtension(o1) == StoredExtension(o2)
  {
    SecureFilenameParses(o1, t1, r1);
    SecureFilenameParses(o2, t2, r2);
  }

  /**
   * A generated name holds no `/`, so it names a file in the destination
   * directory itself; everything before the extension is in `[A-Za-z0-9-]`,
   * and the extension is empty or one `.` followed by no other `.`.
   */
  lemma SecureFilenameSafe(originalname: string, timestamp: nat, random: seq<byte>)
    requires |random| == RandomByteCount
    ensures var name := SecureFilename(originalname, timestamp, random);
            var ext := StoredExtension(originalname);
            && '/' !in name
            && |name| >= 2 * RandomByteCount + 3
            && name[|name| - |ext|..] == ext
            && (ext == [] || (ext[0] == '.' && '.' !in ext[1..]))
            && forall i :: 0 <= i < |name| - |ext| ==> IsAlphanumeric(name[i]) || name[i] == '-'
  {
    var base, dec, hex, ext := SanitizedBase(originalname), Decimal(timestamp), Hex(random), StoredExtension(originalname);
    var stem := base + "-" + dec + "-" + hex;
    assert SecureFilename(originalname, timestamp, random) == stem + ext;
    StemCharacters(base, dec, hex);
    NameShape(stem, ext);
  }

  /** A stem in `[A-Za-z0-9-]` followed by an extension without `/` makes a name without `/`. */
  lemma NameShape(stem: string, ext: string)
    requires forall i :: 0 <= i < |stem| ==> IsAlphanumeric(stem[i]) || stem[i] == '-'
    requires '/' !in ext
    ensures var name := stem + ext;
            && '/' !in name
            && name[|name| - |ext|..] == ext
            && forall i :: 0 <= i < |name| - |ext| ==> IsAlphanumeric(name[i]) || name[i] == '-'
  {
    var name := stem + ext;
    assert name[|stem|..] == ext;
    assert forall i :: 0 <= i < |stem| ==> name[i] == stem[i];
    assert '/' !in stem;
  }

  /**
   * The extension is cut from the base exactly when it is already lower-case;
   * otherwise the whole last segment, extension included, is the base.
   */
  lemma ExtensionStrippedIffLowerCase(originalname: string)
    ensures var raw, seg := ExtName(originalname), LastSegment(originalname);
            BaseName(originalname, ToLowerCase(raw))
            == if ToLowerCase(raw) == raw then seg[..|seg| - |raw|] else seg
  {
    var raw := ExtName(originalname);
    StripExtension(originalname, ToLowerCase(raw));
  }

  // The example lemmas below take their literals as parameters (`requires
  // name == "..."`): the verifier reasons about a parameter much more cheaply
  // than about the same literal spelled out in every step.
  lemma PhotoJpgExtName(name: string)
    requires name == "photo.JPG"
    ensures ExtName(name) == ".JPG" && LastSegment(name) == name
  {
    assert '/' !in name;
    assert LastSegment(name) == name;
    assert name[6..] == "JPG";
    LastIndexOfUnique(name, '.', 5);
    assert name[5..] == ".JPG";
  }

  lemma PhotoJpgExtension(name: string)
    requires name == "photo.JPG"
    ensures StoredExtension(name) == ".jpg" && LastSegment(name) == name
  {
    PhotoJpgExtName(name);
    var lower := ToLowerCase(".JPG");
    assert lower[0] == '.' && lower[1] == 'j' && lower[2] == 'p' && lower[3] == 'g';
  }

  lemma PhotoJpgReplaced(name: string)
    requires name == "photo.JPG"
    ensures ReplaceNonAlphanumeric(name) == "photo-JPG"
  {
    var replaced := ReplaceNonAlphanumeric(name);
    assert !IsAlphanumeric(name[5]);
    assert forall i :: 0 <= i < |name| && i != 5 ==> IsAlphanumeric(name[i]);
    assert replaced == name[..5] + "-" + name[6..];
  }

  /** `photo.JPG` keeps `.JPG` in its base, which is sanitised to `photo-JPG`; its extension is `.jpg`. */
  lemma UpperCaseExtensionExample(name: string)
    requires name == "photo.JPG"
    ensures StoredExtension(name) == ".jpg"
    ensures SanitizedBase(name) == "photo-JPG"
  {
    PhotoJpgExtension(name);
    PhotoJpgKeepsBase(name);
    PhotoJpgReplaced(name);
    var replaced := ReplaceNonAlphanumeric(name);
    assert Substring(replaced, MaxBaseLength) == replaced;
  }

  lemma PhotoJpgKeepsBase(name: string)
    requires name == "photo.JPG" && LastSegment(name) == name
    ensures BaseName(name, ".jpg") == name
  {
    BaseNameProperSuffix(name, ".jpg");
    assert name[5..][1] == 'J';
  }

  /** An empty original name gives an empty base, so the stored name starts with `-`. */
  lemma EmptyOriginalNameExample(timestamp: nat, random: seq<byte>)
    requires |random| == RandomByteCount
    ensures SanitizedBase("") == "" && StoredExtension("") == ""
    ensures SecureFilename("", timestamp, random)[0] == '-'
  {
  }

  // ---------------------------------------------------------------------
  // Destination, content-length check and uploaders
  // ---------------------------------------------------------------------

  const TempDirectory := "temp"

  /** The storage destination: the category's directory under the uploads root, or `temp`. */
  function Destination(uploadsRoot: string, mimetype: string): (dest: string)
    ensures |dest| > |uploadsRoot| + 1 && dest[..|uploadsRoot| + 1] == uploadsRoot + "/"
    ensures '/' !in dest[|uploadsRoot| + 1..]
  {
    var sub := match Classify(mimetype) case Some(c) => CategoryName(c) case None => TempDirectory;
    DirectoryUnder(uploadsRoot, sub);
    Join(uploadsRoot, sub)
  }

  /** A category's directory or `temp`, joined to a root, is a direct child of that root. */
  lemma DirectoryUnder(root: string, sub: string)
    requires sub == TempDirectory || exists c: Category :: sub == CategoryName(c)
    ensures var dest := Join(root, sub);
            |dest| > |root| + 1 && dest[..|root| + 1] == root + "/" && '/' !in dest[|root| + 1..]
  {
    assert Join(root, sub)[|root| + 1..] == sub;
    assert sub == "temp" || sub == "images" || sub == "documents" || sub == "csv";
  }

  /** A listed type goes to its own category's directory, an unlisted one to `temp`. */
  lemma DestinationChoice(uploadsRoot: string, mimetype: string, c: Category)
    ensures mimetype in MimeTypes(c) ==> Destination(uploadsRoot, mimetype) == Join(uploadsRoot, CategoryName(c))
    ensures (forall d: Category :: mimetype !in MimeTypes(d))
            ==> Destination(uploadsRoot, mimetype) == Join(uploadsRoot, TempDirectory)
  {
    ClassifyExact(mimetype, c);
    ClassifyNone(mimetype);
  }

  /** What the file filter decides: accept, or reject with an `ApiError`'s status and message. */
  datatype Verdict = Accept | Reject(statusCode: int, message: string)

  function UnsupportedTypeMessage(mimetype: string): string {
    "Unsupported file type: " + mimetype
  }

  /** The ceiling is printed in MiB; every ceiling is a whole number of MiB. */
  function TooLargeMessage(c: Category): string {
    "File too large. Maximum size for " + CategoryName(c) + " is " + Decimal(MaxFileSize(c) / MiB) + "MB"
  }

  /**
   * `fileFilter`: the type is checked first; a classified file is rejected
   * only when a content length is declared and is above the ceiling of the
   * category the type was classified as.
   */
  function FileFilter(mimetype: string, contentLength: Option<int>): (v: Verdict)
    ensures (forall c: Category :: mimetype !in MimeTypes(c))
            ==> v == Reject(400, UnsupportedTypeMessage(mimetype))
    ensures forall c: Category :: mimetype in MimeTypes(c) ==>
              v == if contentLength.Some? && contentLength.value > MaxFileSize(c)
                   then Reject(400, TooLargeMessage(c)) else Accept
  {
    ClassifyNone(mimetype);
    assert forall c: Category :: Classify(mimetype) == Some(c) <==> mimetype in MimeTypes(c) by {
      forall c: Category { ClassifyExact(mimetype, c); }
    }
    match Classify(mimetype)
    case None => Reject(400, UnsupportedTypeMessage(mimetype))
    case Some(fileType) =>
      if contentLength.Some? && contentLength.value > MaxFileSize(fileType)
      then Reject(400, TooLargeMessage(fileType))
      else Accept
  }

  /** A declared length equal to the ceiling is accepted; one byte more is rejected. */
  lemma FileFilterBoundary(mimetype: string, c: Category)
    requires mimetype in MimeTypes(c)
    ensures FileFilter(mimetype, Some(MaxFileSize(c))) == Accept
    ensures FileFilter(mimetype, Some(MaxFileSize(c) + 1)) == Reject(400, TooLargeMessage(c))
    ensures FileFilter(mimetype, None) == Accept
  {
  }

  /** An accepted file is stored in its own category's directory, never in `temp`. */
  lemma AcceptedFileStoredInOwnCategory(uploadsRoot: string, mimetype: string, contentLength: Option<int>)
    requires FileFilter(mimetype, contentLength) == Accept
    ensures exists c: Category :: mimetype in MimeTypes(c)
                                  && Destination(uploadsRoot, mimetype) == Join(uploadsRoot, CategoryName(c))
  {
    ClassifyNone(mimetype);
    var c :| mimetype in MimeTypes(c);
    DestinationChoice(uploadsRoot, mimetype, c);
  }

  /** The size messages the three categories produce. */
  lemma TooLargeMessages()
    ensures TooLargeMessage(Images) == "File too large. Maximum size for images is 5MB"
    ensures TooLargeMessage(Documents) == "File too large. Maximum size for documents is 10MB"
    ensures TooLargeMessage(Csv) == "File too large. Maximum size for csv is 2MB"
  {
    TooLargeMessageImages(TooLargeMessage(Images));
    TooLargeMessageDocuments(TooLargeMessage(Documents));
    TooLargeMessageCsv(TooLargeMessage(Csv));
  }

  lemma TooLargeMessageImages(message: string)
    requires message == TooLargeMessage(Images)
    ensures message == "File too large. Maximum size for images is 5MB"
  {
    CeilingInMiB(Images, 5);
  }

  lemma TooLargeMessageDocuments(message: string)
    requires message == TooLargeMessage(Documents)
    ensures message == "File too large. Maximum size for documents is 10MB"
  {
    CeilingInMiB(Documents, 10);
    assert Decimal(10) == "10" by {
      assert Decimal(10) == Decimal(1) + [DigitChar(0)];
    }
  }

  lemma TooLargeMessageCsv(message: string)
    requires message == TooLargeMessage(Csv)
    ensures message == "File too large. Maximum size for csv is 2MB"
  {
    CeilingInMiB(Csv, 2);
  }

  /** A ceiling of `k` MiB is printed as `k`. */
  lemma CeilingInMiB(c: Category, k: nat)
    requires MaxFileSize(c) == k * MiB
    ensures MaxFileSize(c) / MiB == k
  {
  }

  /** `fileFilter` as a callback: `null` for acceptance, otherwise a fresh `ApiError`. */
  method FileFilterCallback(mimetype: string, contentLength: Option<int>, stack: string)
    returns (error: ErrorHandler.ApiError?)
    ensures error == null <==> FileFilter(mimetype, contentLength) == Accept
    ensures error != null ==>
              && fresh(error)
              && FileFilter(mimetype, contentLength) == Reject(error.statusCode, error.message)
              && error.errors == ErrorHandler.Undefined && error.stack == stack
  {
    match FileFilter(mimetype, contentLength)
    case Accept =>
      error := null;
    case Reject(statusCode, message) =>
      error := new ErrorHandler.ApiError(statusCode, message, ErrorHandler.Undefined, stack);
  }

  /**
   * A file the filter rejects, handed on to the global error handler: the
   * response carries status 400 and the filter's message.
   */
  method RejectedUploadResponse(mimetype: string, contentLength: Option<int>, stack: string,
                                originalUrl: string, nodeEnv: Option<string>, now: string)
    returns (response: Option<ErrorHandler.ErrorResponse>)
    ensures response.None? <==> FileFilter(mimetype, contentLength) == Accept
    ensures response.Some? ==>
              && response.value.status == 400
              && FileFilter(mimetype, contentLength) == Reject(400, response.value.message)
              && response.value.errors.None? && response.value.path == originalUrl
  {
    var error := FileFilterCallback(mimetype, contentLength, stack);
    if error == null {
      response := None;
    } else {
      var httpStatus, r := ErrorHandler.GlobalErrorHandler(ErrorHandler.ApiErr(error), originalUrl, nodeEnv, now);
      response := Some(r);
    }
  }

  /** The part of a multer instance the model keeps: its streaming size limit. */
  datatype Uploader = Uploader(fileSizeLimit: nat)

  /** `createUploader`: an uploader limited to its category's ceiling. */
  function CreateUploader(fileType: Category): (u: Uploader)
    ensures forall mimetype, n: int :: mimetype in MimeTypes(fileType) ==>
              (FileFilter(mimetype, Some(n)) == Accept <==> n <= u.fileSizeLimit)
  {
    Uploader(MaxFileSize(fileType))
  }

  const ImageUpload := CreateUploader(Images)
  const DocumentUpload := CreateUploader(Documents)
  const CsvUpload := CreateUploader(Csv)

  /** The three uploaders stop a stream at 5, 10 and 2 MiB. */
  lemma UploaderLimits()
    ensures ImageUpload.fileSizeLimit == 5 * 1024 * 1024
    ensures DocumentUpload.fileSizeLimit == 10 * 1024 * 1024
    ensures CsvUpload.fileSizeLimit == 2 * 1024 * 1024
  {
  }

  /**
   * The filter uses the ceiling of the classified category, not that of the
   * uploader it runs in: an 8 MiB PDF declared to the image uploader passes
   * the filter although that uploader's limit is 5 MiB.
   */
  lemma FilterIgnoresUploaderCategory()
    ensures FileFilter("application/pdf", Some(8 * MiB)) == Accept
    ensures ImageUpload.fileSizeLimit < 8 * MiB
  {
    assert "application/pdf" in MimeTypes(Documents);
  }

  // ---------------------------------------------------------------------
  // Directory provisioning and file removal
  // ---------------------------------------------------------------------

  /** The subdirectories `createUploadDirectories` provisions: there is no `csv` among them. */
  const UploadSubdirectories: seq<string> := ["images", "documents", "temp"]

  /** The subdirectories every destination needs: the three above and `csv`. */
  const CorrectedUploadSubdirectories: seq<string> := ["images", "documents", "csv", "temp"]

  /** The paths of `subdirs` under `baseDir`, in order. */
  function SubdirectoryPaths(baseDir: string, subdirs: seq<string>): (paths: seq<string>)
    ensures |paths| == |subdirs|
    ensures forall k :: 0 <= k < |subdirs| ==> paths[k] == Join(baseDir, subdirs[k])
  {
    if subdirs == [] then [] else SubdirectoryPaths(baseDir, subdirs[..|subdirs| - 1]) + [Join(baseDir, subdirs[|subdirs| - 1])]
  }

  /**
   * The directories after provisioning: each of `baseDir` and its
   * subdirectories is created unless something already exists at that path
   * (`existsSync` is true for a file as well).
   */
  function Provisioned(directories: set<string>, files: set<string>, baseDir: string, subdirs: seq<string>): (after: set<string>)
    ensures directories <= after
    ensures forall p :: p in after ==>
              p in directories
              || (p !in files && (p == baseDir || exists k :: 0 <= k < |subdirs| && p == Join(baseDir, subdirs[k])))
  {
    directories + set p | p in [baseDir] + SubdirectoryPaths(baseDir, subdirs) && p !in files
  }

  /** Provisioning one more subdirectory adds its path, unless a file is there. */
  lemma ProvisionedStep(directories: set<string>, files: set<string>, baseDir: string, subdirs: seq<string>, i: nat)
    requires i < |subdirs|
    ensures var p := Join(baseDir, subdirs[i]);
            Provisioned(directories, files, baseDir, subdirs[..i + 1])
            == Provisioned(directories, files, baseDir, subdirs[..i]) + (if p in files then {} else {p})
  {
    assert subdirs[..i + 1][..i] == subdirs[..i];
    assert SubdirectoryPaths(baseDir, subdirs[..i + 1])
           == SubdirectoryPaths(baseDir, subdirs[..i]) + [Join(baseDir, subdirs[i])];
  }

  /** Provisioning adds the missing directories, removes nothing, and a second run changes nothing. */
  lemma ProvisionedProperties(directories: set<string>, files: set<string>, baseDir: string, subdirs: seq<string>)
    ensures var after := Provisioned(directories, files, baseDir, subdirs);
            && directories <= after
            && (baseDir !in files ==> baseDir in after)
            && (forall k :: 0 <= k < |subdirs| && Join(baseDir, subdirs[k]) !in files ==> Join(baseDir, subdirs[k]) in after)
            && Provisioned(after, files, baseDir, subdirs) == after
  {
    var targets := [baseDir] + SubdirectoryPaths(baseDir, subdirs);
    forall k | 0 <= k < |subdirs| ensures Join(baseDir, subdirs[k]) in targets {
      assert targets[k + 1] == Join(baseDir, subdirs[k]);
    }
  }

  /**
   * The directories the upload code provisions leave the `csv` destination
   * missing: a CSV upload is routed to a directory that was never created.
   */
  lemma CsvDestinationNotProvisioned(directories: set<string>, files: set<string>, uploadsRoot: string, mimetype: string)
    requires mimetype in MimeTypes(Csv) && Join(uploadsRoot, "csv") !in directories
    ensures Destination(uploadsRoot, mimetype) !in Provisioned(directories, files, uploadsRoot, UploadSubdirectories)
  {
    DestinationChoice(uploadsRoot, mimetype, Csv);
    forall k | 0 <= k < |UploadSubdirectories|
      ensures Join(uploadsRoot, "csv") != Join(uploadsRoot, UploadSubdirectories[k])
    {
      JoinInjective(uploadsRoot, "csv", UploadSubdirectories[k]);
    }
    NotProvisioned(directories, files, uploadsRoot, UploadSubdirectories, Join(uploadsRoot, "csv"));
  }

  /** A path that is neither the base, nor a subdirectory's path, nor already a directory is not provisioned. */
  lemma NotProvisioned(directories: set<string>, files: set<string>, baseDir: string, subdirs: seq<string>, path: string)
    requires path !in directories && path != baseDir
    requires forall k :: 0 <= k < |subdirs| ==> path != Join(baseDir, subdirs[k])
    ensures path !in Provisioned(directories, files, baseDir, subdirs)
  {
    var paths := SubdirectoryPaths(baseDir, subdirs);
    assert path !in paths;
  }

  /** With the list as written, every destination but the CSV one exists once provisioning has run. */
  lemma NonCsvDestinationProvisioned(directories: set<string>, files: set<string>, uploadsRoot: string, mimetype: string)
    requires mimetype !in MimeTypes(Csv) && Destination(uploadsRoot, mimetype) !in files
    ensures Destination(uploadsRoot, mimetype) in Provisioned(directories, files, uploadsRoot, UploadSubdirectories)
  {
    ProvisionedProperties(directories, files, uploadsRoot, UploadSubdirectories);
    match Classify(mimetype)
    case None =>
      assert UploadSubdirectories[2] == TempDirectory;
    case Some(c) =>
      ClassifyExact(mimetype, c);
      match c
      case Images => assert UploadSubdirectories[0] == CategoryName(c);
      case Documents => assert UploadSubdirectories[1] == CategoryName(c);
      case Csv => assert false;
  }

  /** With `csv` among the subdirectories, every destination exists once provisioning has run. */
  lemma EveryDestinationProvisioned(directories: set<string>, files: set<string>, uploadsRoot: string, mimetype: string)
    requires Destination(uploadsRoot, mimetype) !in files
    ensures Destination(uploadsRoot, mimetype) in Provisioned(directories, files, uploadsRoot, CorrectedUploadSubdirectories)
  {
    ProvisionedProperties(directories, files, uploadsRoot, CorrectedUploadSubdirectories);
    match Classify(mimetype)
    case None =>
      assert CorrectedUploadSubdirectories[3] == TempDirectory;
    case Some(c) =>
      match c
      case Images => assert CorrectedUploadSubdirectories[0] == CategoryName(c);
      case Documents => assert CorrectedUploadSubdirectories[1] == CategoryName(c);
      case Csv => assert CorrectedUploadSubdirectories[2] == CategoryName(c);
  }

  /** The file system as the upload code sees it: which paths are directories and which are files. */
  class FileSystem {
    var directories: set<string>
    var files: set<string>

    /** No path is both a directory and a file. */
    ghost predicate Valid()
      reads this
    {
      directories !! files
    }

    constructor (directories: set<string>, files: set<string>)
      requires directories !! files
      ensures Valid() && this.directories == directories && this.files == files
    {
      this.directories := directories;
      this.files := files;
    }

    /** `createUploadDirectories`: the base directory, then each subdirectory in turn. */
    method CreateUploadDirectories(baseDir: string, subdirs: seq<string>)
      requires Valid()
      modifies this
      ensures Valid()
      ensures directories == Provisioned(old(directories), files, baseDir, subdirs)
      ensures files == old(files)
    {
      if baseDir !in directories && baseDir !in files {
        directories := directories + {baseDir};
      }
      var i := 0;
      while i < |subdirs|
        invariant 0 <= i <= |subdirs|
        invariant Valid() && files == old(files)
        invariant directories == Provisioned(old(directories), files, baseDir, subdirs[..i])
      {
        var dirPath := Join(baseDir, subdirs[i]);
        ProvisionedStep(old(directories), files, baseDir, subdirs, i);
        if dirPath !in directories && dirPath !in files {
          directories := directories + {dirPath};
        }
        i := i + 1;
      }
      assert subdirs[..i] == subdirs;
    }

    /**
     * `removeFile`: a file is unlinked and `true` returned; for a directory
     * the unlink fails and, as for a missing path, `false` is returned and
     * nothing changes.
     */
    method RemoveFile(filePath: string) returns (removed: bool)
      requires Valid()
      modifies this
      ensures Valid()
      ensures removed <==> filePath in old(files)
      ensures filePath in old(directories) ==> !removed
      ensures files == old(files) - {filePath}
      ensures directories == old(directories)
    {
      if filePath in files || filePath in directories {
        if filePath in files {
          files := files - {filePath};
          return true;
        }
        return false;
      }
      return false;
    }
  }

  /**
   * Provisioning at module load, with the subdirectory list as written:
   * afterwards every destination but the CSV one is a directory, unless a
   * file is in its way, and a CSV destination that was not there before is
   * still missing.
   */
  method ProvisionAtStartup(fs: FileSystem, uploadsRoot: string)
    requires fs.Valid()
    modifies fs
    ensures fs.Valid() && fs.files == old(fs.files)
    ensures fs.directories == Provisioned(old(fs.directories), fs.files, uploadsRoot, UploadSubdirectories)
    ensures forall mimetype :: mimetype !in MimeTypes(Csv) && Destination(uploadsRoot, mimetype) !in fs.files
                               ==> Destination(uploadsRoot, mimetype) in fs.directories
    ensures Join(uploadsRoot, "csv") !in old(fs.directories) ==>
              forall mimetype :: mimetype in MimeTypes(Csv) ==> Destination(uploadsRoot, mimetype) !in fs.directories
  {
    fs.CreateUploadDirectories(uploadsRoot, UploadSubdirectories);
    forall mimetype | mimetype !in MimeTypes(Csv) && Destination(uploadsRoot, mimetype) !in fs.files
      ensures Destination(uploadsRoot, mimetype) in fs.directories
    {
      NonCsvDestinationProvisioned(old(fs.directories), fs.files, uploadsRoot, mimetype);
    }
    if Join(uploadsRoot, "csv") !in old(fs.directories) {
      forall mimetype | mimetype in MimeTypes(Csv)
        ensures Destination(uploadsRoot, mimetype) !in fs.directories
      {
        CsvDestinationNotProvisioned(old(fs.directories), fs.files, uploadsRoot, mimetype);
      }
    }
  }

  /**
   * Provisioning at module load with `csv` added to the subdirectory list:
   * afterwards every destination the storage can choose is a directory,
   * unless a file is in its way.
   */
  method ProvisionAtStartupCorrected(fs: FileSystem, uploadsRoot: string)
    requires fs.Valid()
    modifies fs
    ensures fs.Valid() && fs.files == old(fs.files)
    ensures fs.directories == Provisioned(old(fs.directories), fs.files, uploadsRoot, CorrectedUploadSubdirectories)
    ensures forall mimetype :: Destination(uploadsRoot, mimetype) !in fs.files
                               ==> Destination(uploadsRoot, mimetype) in fs.directories
  {
    fs.CreateUploadDirectories(uploadsRoot, CorrectedUploadSubdirectories);
    forall mimetype | Destination(uploadsRoot, mimetype) !in fs.files
      ensures Destination(uploadsRoot, mimetype) in fs.directories
    {
      EveryDestinationProvisioned(old(fs.directories), fs.files, uploadsRoot, mimetype);
    }
  }

  // ---------------------------------------------------------------------
  // Public URLs
  // ---------------------------------------------------------------------

  const UploadsMarker := "uploads"

  function BaseUrl(protocol: string, host: string): string {
    protocol + "://" + host
  }

  /**
   * `getFileUrl`: the base URL, `/uploads`, and the second piece of the
   * path split at `uploads` with `\` turned into `/`.  `None` stands for the
   * `TypeError` raised when the path holds no `uploads`.
   */
  function GetFileUrl(protocol: string, host: string, filePath: string): (url: Option<string>)
    ensures url.None? <==> !Contains(filePath, UploadsMarker)
    ensures url.Some? ==>
              var i := IndexOf(filePath, UploadsMarker).value;
              var rest := filePath[i + |UploadsMarker|..];
              var piece := match IndexOf(rest, UploadsMarker) case None => rest case Some(j) => rest[..j];
              url.value == BaseUrl(protocol, host) + "/uploads" + ReplaceBackslashes(piece)
  {
    SplitCount(filePath, UploadsMarker);
    var pieces := Split(filePath, UploadsMarker);
    if |pieces| < 2 then None
    else
      SecondPiece(filePath, UploadsMarker);
      Some(BaseUrl(protocol, host) + "/uploads" + ReplaceBackslashes(pieces[1]))
  }

  /**
   * The URL as evidently meant: the path relative to the uploads root,
   * under `/uploads`.  A path that is not inside the root directory (one
   * that does not start with the root followed by `/`) has no URL, so
   * `/srv/uploads2/a.png` is not taken to lie under `/srv/uploads`.
   */
  function GetFileUrlCorrected(protocol: string, host: string, uploadsRoot: string, filePath: string): (url: Option<string>)
    ensures url.None? <==> !(uploadsRoot + "/" <= filePath)
  {
    if uploadsRoot + "/" <= filePath
    then Some(BaseUrl(protocol, host) + "/uploads" + ReplaceBackslashes(filePath[|uploadsRoot|..]))
    else None
  }

  /**
   * For a file stored as `name` in the subdirectory `sub` of any uploads
   * root, the corrected URL is the root URL followed by `sub/name`.
   */
  lemma StoredFileUrl(protocol: string, host: string, uploadsRoot: string, sub: string, name: string)
    ensures GetFileUrlCorrected(protocol, host, uploadsRoot, Join(Join(uploadsRoot, sub), name))
            == Some(BaseUrl(protocol, host) + "/uploads/" + ReplaceBackslashes(sub + "/" + name))
  {
    var rel := sub + "/" + name;
    var path := Join(Join(uploadsRoot, sub), name);
    JoinTwice(uploadsRoot, sub, name);
    assert path == (uploadsRoot + "/") + rel;
    assert path[|uploadsRoot|..] == "/" + rel;
    ReplaceBackslashesAppend("/", rel);
    SlashPrefix(BaseUrl(protocol, host), ReplaceBackslashes(rel));
  }

  /**
   * For an uploads root whose only `uploads` is its end, the source's URL of
   * a stored file is the corrected one exactly when the subdirectory and
   * the stored name hold no `uploads`.
   */
  lemma StoredFileUrlAsWritten(protocol: string, host: string, uploadsRoot: string, sub: string, name: string)
    requires IndexOf(uploadsRoot, UploadsMarker) == Some(|uploadsRoot| - |UploadsMarker|)
    ensures GetFileUrl(protocol, host, Join(Join(uploadsRoot, sub), name))
            == Some(BaseUrl(protocol, host) + "/uploads/" + ReplaceBackslashes(sub + "/" + name))
            <==> !Contains(sub + "/" + name, UploadsMarker)
  {
    var rel := sub + "/" + name;
    var path := Join(Join(uploadsRoot, sub), name);
    JoinTwice(uploadsRoot, sub, name);
    AfterMarker(uploadsRoot, "/" + rel, UploadsMarker);
    GetFileUrlKeepsRestIff(protocol, host, path);
    ReplaceBackslashesAppend("/", rel);
    SlashPrefix(BaseUrl(protocol, host), ReplaceBackslashes(rel));
    SlashContains(rel);
  }

  /**
   * An uploads root ending in `uploads` with an earlier `uploads` in it
   * (such as `/srv/uploads-api/uploads`): the source gives every file
   * stored under it one and the same URL, the base URL, `/uploads` and the
   * root's text between its first and its next `uploads`.
   */
  lemma EarlierMarkerUrl(protocol: string, host: string, uploadsRoot: string, sub: string, name: string)
    requires |uploadsRoot| >= |UploadsMarker| && OccursAt(uploadsRoot, UploadsMarker, |uploadsRoot| - |UploadsMarker|)
    requires IndexOf(uploadsRoot, UploadsMarker).Some?
    requires IndexOf(uploadsRoot, UploadsMarker).value < |uploadsRoot| - |UploadsMarker|
    ensures var i := IndexOf(uploadsRoot, UploadsMarker).value;
            var r := uploadsRoot[i + |UploadsMarker|..];
            && IndexOf(r, UploadsMarker).Some?
            && GetFileUrl(protocol, host, Join(Join(uploadsRoot, sub), name))
               == Some(BaseUrl(protocol, host) + "/uploads" + ReplaceBackslashes(r[..IndexOf(r, UploadsMarker).value]))
  {
    var i := IndexOf(uploadsRoot, UploadsMarker).value;
    var r := uploadsRoot[i + |UploadsMarker|..];
    var tail := "/" + (sub + "/" + name);
    var path := Join(Join(uploadsRoot, sub), name);
    JoinTwice(uploadsRoot, sub, name);
    RootRestMarker(uploadsRoot, i);
    var j := IndexOf(r, UploadsMarker).value;
    PathAfterRoot(uploadsRoot, tail, i);
    RestPiece(r, tail, j);
    AsWrittenUrlAt(protocol, host, path, i, j);
  }

  /** Text appended to a root keeps the root's first `uploads` and follows the root's remainder. */
  lemma PathAfterRoot(root: string, tail: string, i: nat)
    requires IndexOf(root, UploadsMarker) == Some(i)
    ensures IndexOf(root + tail, UploadsMarker) == Some(i)
    ensures i + |UploadsMarker| <= |root| && (root + tail)[i + |UploadsMarker|..] == root[i + |UploadsMarker|..] + tail
  {
    IndexOfAppend(root, tail, UploadsMarker);
  }

  /** The first `uploads` of the root's remainder is also the first one once text is appended. */
  lemma RestPiece(r: string, tail: string, j: nat)
    requires IndexOf(r, UploadsMarker) == Some(j)
    ensures IndexOf(r + tail, UploadsMarker) == Some(j) && j <= |r| && (r + tail)[..j] == r[..j]
  {
    IndexOfAppend(r, tail, UploadsMarker);
  }

  /** The text of a root after an earlier `uploads` still holds the root's final `uploads`. */
  lemma RootRestMarker(root: string, i: nat)
    requires |root| >= |UploadsMarker| && OccursAt(root, UploadsMarker, |root| - |UploadsMarker|)
    requires OccursAt(root, UploadsMarker, i) && i < |root| - |UploadsMarker|
    ensures IndexOf(root[i + |UploadsMarker|..], UploadsMarker).Some?
  {
    var last := |root| - |UploadsMarker|;
    assert root[last] == 'u' by {
      assert root[last..last + |UploadsMarker|][0] == root[last];
    }
    forall j | i < j < i + |UploadsMarker| ensures root[j] != 'u' {
      assert root[i..i + |UploadsMarker|][j - i] == root[j];
    }
    assert i + |UploadsMarker| <= last;
    var r := root[i + |UploadsMarker|..];
    var k := last - i - |UploadsMarker|;
    assert r[k..k + |UploadsMarker|] == root[last..];
    assert OccursAt(r, UploadsMarker, k);
  }

  /** A leading `/` neither makes nor hides an `uploads`. */
  lemma SlashContains(rel: string)
    ensures Contains("/" + rel, UploadsMarker) <==> Contains(rel, UploadsMarker)
  {
    var s := "/" + rel;
    if Contains(s, UploadsMarker) {
      var i: nat :| i <= |s| && OccursAt(s, UploadsMarker, i);
      assert s[i..i + |UploadsMarker|][0] == s[i];
      assert i > 0;
      assert rel[i - 1..i - 1 + |UploadsMarker|] == s[i..i + |UploadsMarker|];
      assert OccursAt(rel, UploadsMarker, i - 1);
    }
    if Contains(rel, UploadsMarker) {
      var i: nat :| i <= |rel| && OccursAt(rel, UploadsMarker, i);
      assert s[i + 1..i + 1 + |UploadsMarker|] == rel[i..i + |UploadsMarker|];
      assert OccursAt(s, UploadsMarker, i + 1);
    }
  }

  lemma JoinTwice(dir: string, sub: string, name: string)
    ensures Join(Join(dir, sub), name) == dir + ("/" + (sub + "/" + name))
  {
  }

  lemma SlashPrefix(base: string, rel: string)
    ensures base + "/uploads" + ("/" + rel) == base + "/uploads/" + rel
  {
  }

  /** A marker found only at the very end of `a` is followed, in `a + b`, by exactly `b`. */
  lemma AfterMarker(a: string, b: string, pat: string)
    requires IndexOf(a, pat) == Some(|a| - |pat|)
    ensures IndexOf(a + b, pat) == Some(|a| - |pat|)
    ensures (a + b)[|a| - |pat| + |pat|..] == b
  {
    IndexOfAppend(a, b, pat);
  }

  /**
   * The source's URL holds the whole rest of the path after its first
   * `uploads` exactly when that rest holds no further `uploads`; otherwise
   * it is cut short at that second occurrence.
   */
  lemma GetFileUrlKeepsRestIff(protocol: string, host: string, filePath: string)
    requires Contains(filePath, UploadsMarker)
    ensures var rest := filePath[IndexOf(filePath, UploadsMarker).value + |UploadsMarker|..];
            GetFileUrl(protocol, host, filePath) == Some(BaseUrl(protocol, host) + "/uploads" + ReplaceBackslashes(rest))
            <==> !Contains(rest, UploadsMarker)
  {
    var rest := filePath[IndexOf(filePath, UploadsMarker).value + |UploadsMarker|..];
    if Contains(rest, UploadsMarker) {
      var k := IndexOf(rest, UploadsMarker).value;
      assert |GetFileUrl(protocol, host, filePath).value| < |BaseUrl(protocol, host) + "/uploads" + ReplaceBackslashes(rest)|;
    }
  }

  /**
   * A stored name that itself contains `uploads`: an original name
   * `myuploads.png` is stored as `myuploads-<timestamp>-<hex>.png`, and for
   * that file in `images` the source's URL ends in `/uploads/images/my`,
   * whatever the timestamp and the random bytes, where the corrected URL
   * holds the whole stored name.
   */
  lemma GetFileUrlTruncatesExample(protocol: string, host: string, uploadsRoot: string, timestamp: nat, random: seq<byte>)
    requires |random| == RandomByteCount
    requires IndexOf(uploadsRoot, UploadsMarker) == Some(|uploadsRoot| - |UploadsMarker|)
    ensures var path := Join(Join(uploadsRoot, "images"), SecureFilename("myuploads.png", timestamp, random));
            GetFileUrl(protocol, host, path) == Some(BaseUrl(protocol, host) + "/uploads/images/my")
    ensures var name := SecureFilename("myuploads.png", timestamp, random);
            GetFileUrlCorrected(protocol, host, uploadsRoot, Join(Join(uploadsRoot, "images"), name))
            == Some(BaseUrl(protocol, host) + "/uploads/" + ReplaceBackslashes("images" + "/" + name))
  {
    var name := SecureFilename("myuploads.png", timestamp, random);
    var tail := SecureFilenameBase("myuploads.png", timestamp, random);
    MyUploadsBase("myuploads.png");
    var path := Join(Join(uploadsRoot, "images"), name);
    var rest := "/" + ("images" + "/" + name);
    JoinTwice(uploadsRoot, "images", name);
    AfterMarker(uploadsRoot, rest, UploadsMarker);
    TruncatedRest(rest, name, tail);
    AsWrittenUrlAt(protocol, host, path, |uploadsRoot| - |UploadsMarker|, 10);
    NoBackslashes(rest[..10]);
    ExampleUrl(BaseUrl(protocol, host), rest[..10]);
    StoredFileUrl(protocol, host, uploadsRoot, "images", name);
  }

  /** After the root's `uploads`, the path of a name starting `myuploads` has its next `uploads` at 10. */
  lemma TruncatedRest(rest: string, name: string, tail: string)
    requires name == "myuploads" + tail && rest == "/" + ("images" + "/" + name)
    ensures IndexOf(rest, UploadsMarker) == Some(10)
    ensures rest[..10] == "/images/my" && '\\' !in rest[..10]
  {
    var front := "/images/myuploads";
    assert rest == front + tail;
    ExampleRestMarker(front);
    IndexOfAppend(front, tail, UploadsMarker);
    assert rest[..10] == front[..10];
  }

  lemma ExampleUrl(base: string, piece: string)
    requires piece == "/images/my"
    ensures base + "/uploads" + piece == base + "/uploads/images/my"
  {
    assert "/uploads" + piece == "/uploads/images/my";
  }

  /** A generated name is its sanitised base followed by the rest. */
  lemma SecureFilenameBase(original: string, timestamp: nat, random: seq<byte>) returns (tail: string)
    requires |random| == RandomByteCount
    ensures SecureFilename(original, timestamp, random) == SanitizedBase(original) + tail
  {
    var base, dec, hex, ext := SanitizedBase(original), Decimal(timestamp), Hex(random), StoredExtension(original);
    tail := Regroup(base, "-", dec, hex, ext);
  }

  // `dash` is the literal `"-"` passed as a parameter: regrouping the
  // concatenation is much cheaper for the verifier over parameters alone.
  lemma Regroup(base: string, dash: string, dec: string, hex: string, ext: string) returns (tail: string)
    ensures base + dash + dec + dash + hex + ext == base + tail
  {
    tail := dash + dec + dash + hex + ext;
    assert base + dash + dec + dash + hex + ext == base + (dash + dec + dash + hex + ext);
  }

  /** `myuploads.png` keeps `myuploads` as its base: its extension is already lower-case. */
  lemma MyUploadsBase(original: string)
    requires original == "myuploads.png"
    ensures SanitizedBase(original) == "myuploads"
  {
    MyUploadsExtension(original);
    MyUploadsKeepsStem(original);
    MyUploadsAlphanumeric(BaseName(original, ".png"));
  }

  lemma MyUploadsKeepsStem(original: string)
    requires original == "myuploads.png" && LastSegment(original) == original
    ensures BaseName(original, ".png") == "myuploads"
  {
    BaseNameProperSuffix(original, ".png");
    assert original[9..] == ".png";
  }

  lemma MyUploadsAlphanumeric(base: string)
    requires base == "myuploads"
    ensures ReplaceNonAlphanumeric(base) == base
    ensures Substring(base, MaxBaseLength) == base
  {
    assert forall i :: 0 <= i < |base| ==> IsAlphanumeric(base[i]);
  }

  lemma MyUploadsExtension(original: string)
    requires original == "myuploads.png"
    ensures StoredExtension(original) == ".png" && LastSegment(original) == original
  {
    MyUploadsExtName(original);
    var lower := ToLowerCase(".png");
    assert lower[0] == '.' && lower[1] == 'p' && lower[2] == 'n' && lower[3] == 'g';
  }

  lemma MyUploadsExtName(original: string)
    requires original == "myuploads.png"
    ensures ExtName(original) == ".png" && LastSegment(original) == original
  {
    assert '/' !in original;
    assert original[10..] == "png";
    LastIndexOfUnique(original, '.', 9);
    assert original[9..] == ".png";
  }

  lemma ExampleRestMarker(front: string)
    requires front == "/images/myuploads"
    ensures IndexOf(front, UploadsMarker) == Some(10)
    ensures front[..10] == "/images/my"
    ensures '\\' !in front[..10]
  {
    assert OccursAt(front, UploadsMarker, 10);
    forall j: nat | j < 10 ensures !OccursAt(front, UploadsMarker, j) {
      assert front[j] != 'u';
      if j + |UploadsMarker| <= |front| {
        assert front[j..j + |UploadsMarker|][0] == front[j];
      }
    }
  }

  lemma NoBackslashes(s: string)
    requires '\\' !in s
    ensures ReplaceBackslashes(s) == s
  {
    assert forall k :: 0 <= k < |s| ==> s[k] != '\\';
  }

  /** The source's URL for a path whose first marker is at `i` and whose rest has its next marker at `j`. */
  lemma AsWrittenUrlAt(protocol: string, host: string, path: string, i: nat, j: nat)
    requires IndexOf(path, UploadsMarker) == Some(i)
    requires i + |UploadsMarker| <= |path| && IndexOf(path[i + |UploadsMarker|..], UploadsMarker) == Some(j)
    ensures j <= |path[i + |UploadsMarker|..]|
    ensures GetFileUrl(protocol, host, path)
            == Some(BaseUrl(protocol, host) + "/uploads" + ReplaceBackslashes(path[i + |UploadsMarker|..][..j]))
  {
    var rest := path[i + |UploadsMarker|..];
    SplitCount(path, UploadsMarker);
    SecondPiece(path, UploadsMarker);
    assert Split(path, UploadsMarker)[1] == rest[..j];
  }
}
