/** The upload route (app/api/upload/route.ts, `POST`): validates the form's
    file, stamps it with its upload and expiry times, derives the storage key
    from them and the sanitised name, stores it and describes it. */
module Upload {
  import opened Text
  import Config

  /** The route's own size ceiling, `50 * 1024 * 1024`. */
  const MaxUploadBytes: nat := 50 * 1024 * 1024

  /** The route's own lifetime, `7 * 24 * 60 * 60 * 1000` milliseconds. */
  const ExpireInMs: nat := 7 * 24 * 60 * 60 * 1000

  // The fixed strings of the route.
  const NoFileMessage: Utf16 := FromBmp("No file provided")
  const TooLargeMessage: Utf16 := FromBmp("File size exceeds 50MB limit")
  const UploadFailedPrefix: Utf16 := FromBmp("Upload failed: ")
  const PreviewPath: Utf16 := FromBmp("/api/file/")
  const ImagePrefix: Utf16 := FromBmp("image/")
  const VideoPrefix: Utf16 := FromBmp("video/")

  /** The file of the multipart form field `file`. */
  datatype FormFile = FormFile(name: Utf16, size: nat, mimeType: Utf16)

  /** The `file` object of a successful response. */
  datatype FileDescriptor = FileDescriptor(
    id: Utf16,
    name: Utf16,
    size: nat,
    mimeType: Utf16,
    url: Utf16,
    previewUrl: Utf16,
    fileName: Utf16,
    isMedia: bool,
    isImage: bool,
    isVideo: bool,
    uploadedAt: Utf16)

  datatype Body = Failed(error: Utf16) | Uploaded(file: FileDescriptor)

  /** The HTTP reply, and the key handed to the storage upload when the route
      got that far (whether or not the upload then succeeded). */
  datatype Outcome = Outcome(status: nat, body: Body, uploadKey: Option<Utf16>)

  /** The units `[a-zA-Z0-9.-]` that sanitisation keeps. */
  predicate KeptByName(u: CodeUnit)
  {
    IsUpper(u) || IsLower(u) || IsDigit(u) || u == Dot || u == Dash
  }

  /** `name.replace(/[^a-zA-Z0-9.-]/g, "_")`, unit by unit. */
  function Sanitize(name: Utf16): (r: Utf16)
    ensures |r| == |name|
    ensures forall i :: 0 <= i < |r| ==> KeptByName(r[i]) || r[i] == Underscore
  {
    seq(|name|, i requires 0 <= i < |name| => if KeptByName(name[i]) then name[i] else Underscore)
  }

  /** Sanitising keeps the length and every position: kept units stay, all
      others become `_`, and the result holds only `[A-Za-z0-9._-]`. */
  lemma SanitizeSpec(name: Utf16)
    ensures |Sanitize(name)| == |name|
    ensures forall i :: 0 <= i < |name| && KeptByName(name[i]) ==> Sanitize(name)[i] == name[i]
    ensures forall i :: 0 <= i < |name| && !KeptByName(name[i]) ==> Sanitize(name)[i] == Underscore
    ensures forall i :: 0 <= i < |name| ==> KeptByName(Sanitize(name)[i]) || Sanitize(name)[i] == Underscore
  {
  }

  /** Sanitising a sanitised name changes nothing. */
  lemma SanitizeIdempotent(name: Utf16)
    ensures Sanitize(Sanitize(name)) == Sanitize(name)
  {
  }

  /** Without the `u` flag the pattern sees code units, so a character outside
      the Basic Multilingual Plane (an emoji, say) becomes two underscores. */
  lemma AstralCharacterBecomesTwoUnderscores(c: char)
    requires c as int >= 0x1_0000
    ensures Sanitize(Utf16Of([c])) == [Underscore, Underscore]
  {
    assert Utf16Of([c]) == CodeUnitsOf(c) + Utf16Of([]);
  }

  /** `${now}-${expireAt}-${sanitizedName}`. */
  function FileKey(now: nat, expireAt: nat, sanitizedName: Utf16): (key: Utf16)
    // it starts with a digit, which is never `-`, and ends with the name
    ensures |key| > |sanitizedName| + 2 && IsDigit(key[0])
    ensures |sanitizedName| <= |key| && key[|key| - |sanitizedName|..] == sanitizedName
  {
    Decimal(now) + [Dash] + Decimal(expireAt) + [Dash] + sanitizedName
  }

  /** Splitting a key on `-` gives at least three pieces: the upload time,
      the expiry time, and the pieces of the name, whatever the name holds. */
  lemma KeyFields(now: nat, expireAt: nat, sanitizedName: Utf16)
    ensures var parts := Split(FileKey(now, expireAt, sanitizedName), Dash);
      && |parts| >= 3
      && parts[0] == Decimal(now)
      && parts[1] == Decimal(expireAt)
      && Join(parts[2..], Dash) == sanitizedName
  {
    var rest := Split(sanitizedName, Dash);
    KeyPieces(now, expireAt, sanitizedName);
    assert ([Decimal(now), Decimal(expireAt)] + rest)[2..] == rest;
    JoinSplit(sanitizedName, Dash);
  }

  /** The pieces of a key: its two times, then the pieces of the name. */
  lemma KeyPieces(now: nat, expireAt: nat, sanitizedName: Utf16)
    ensures Split(FileKey(now, expireAt, sanitizedName), Dash)
      == [Decimal(now), Decimal(expireAt)] + Split(sanitizedName, Dash)
  {
    var uploaded, expiry := Decimal(now), Decimal(expireAt);
    var tail := expiry + [Dash] + sanitizedName;
    assert FileKey(now, expireAt, sanitizedName) == uploaded + [Dash] + tail;
    SplitAfterField(uploaded, Dash, tail);
    SplitAfterField(expiry, Dash, sanitizedName);
  }

  /** `file.type.startsWith(prefix)`. */
  predicate StartsWith(s: Utf16, prefix: Utf16)
  {
    |prefix| <= |s| && s[..|prefix|] == prefix
  }

  /** `POST`, from the form's file (`None` when the field is missing) and
      `Date.now()`. The storage service's answer for the key is a parameter:
      the error message of the upload, if it failed, and the public URL it
      gives; `new Date().toISOString()` is one too. */
  function Post(file: Option<FormFile>, now: nat, storeError: Option<Utf16>,
                publicUrl: Utf16, isoNow: Utf16): (o: Outcome)
    // a missing file is refused first, before any size check or storage call
    ensures file.None? ==>
      o == Outcome(400, Failed(NoFileMessage), None)
    // too large means strictly more than 50 MiB; no upload is attempted then
    ensures file.Some? && file.value.size > MaxUploadBytes ==>
      o == Outcome(400, Failed(TooLargeMessage), None)
    ensures o.status == 400 <==> file.None? || file.value.size > MaxUploadBytes
    ensures o.uploadKey.None? <==> o.status == 400
    // an accepted file is uploaded under a key that expires one week after now
    ensures o.uploadKey.Some? ==>
      o.uploadKey.value == FileKey(now, now + ExpireInMs, Sanitize(file.value.name))
    ensures o.status == 500 <==> o.uploadKey.Some? && storeError.Some?
    ensures o.status == 500 ==>
      o.body == Failed(UploadFailedPrefix + storeError.value)
    ensures o.status in {200, 400, 500}
    ensures o.status == 200 <==> o.body.Uploaded?
    // the descriptor names the stored object by its key, everywhere
    ensures o.body.Uploaded? ==>
      var d := o.body.file;
      && d.id == o.uploadKey.value
      && d.fileName == o.uploadKey.value
      && d.previewUrl == PreviewPath + o.uploadKey.value
      && d.url == publicUrl
      && d.name == file.value.name && d.size == file.value.size && d.mimeType == file.value.mimeType
      && d.isImage == StartsWith(file.value.mimeType, ImagePrefix)
      && d.isVideo == StartsWith(file.value.mimeType, VideoPrefix)
      && d.isMedia == (d.isImage || d.isVideo)
      && d.uploadedAt == isoNow
  {
    if file.None? then
      Outcome(400, Failed(NoFileMessage), None)
    else if file.value.size > 50 * 1024 * 1024 then
      Outcome(400, Failed(TooLargeMessage), None)
    else
      var f := file.value;
      var expireAt := now + 7 * 24 * 60 * 60 * 1000;
      var fileName := FileKey(now, expireAt, Sanitize(f.name));
      match storeError
      case Some(message) =>
        Outcome(500, Failed(UploadFailedPrefix + message), Some(fileName))
      case None =>
        var isImage := StartsWith(f.mimeType, ImagePrefix);
        var isVideo := StartsWith(f.mimeType, VideoPrefix);
        var descriptor := FileDescriptor(
          fileName, f.name, f.size, f.mimeType, publicUrl, PreviewPath + fileName,
          fileName, isImage || isVideo, isImage, isVideo, isoNow);
        Outcome(200, Uploaded(descriptor), Some(fileName))
  }

  /** The upload key carries the upload time and an expiry time strictly
      after it, and field 1 of the key reads back as that expiry time. */
  lemma UploadKeyExpiresAfterUpload(file: FormFile, now: nat, storeError: Option<Utf16>,
                                    publicUrl: Utf16, isoNow: Utf16)
    requires file.size <= MaxUploadBytes
    ensures var key := Post(Some(file), now, storeError, publicUrl, isoNow).uploadKey.value;
      var parts := Split(key, Dash);
      && |parts| >= 3
      && AllDigits(parts[0]) && DigitsValue(parts[0]) == now
      && AllDigits(parts[1]) && DigitsValue(parts[1]) == now + 604800000
      && DigitsValue(parts[1]) > DigitsValue(parts[0])
  {
    KeyFields(now, now + ExpireInMs, Sanitize(file.name));
    DecimalRoundTrip(now);
    DecimalRoundTrip(now + ExpireInMs);
  }

  /** A file of exactly 50 MiB is accepted; one byte more is refused. */
  lemma FiftyMebibytesIsTheLimit(name: Utf16, mimeType: Utf16, now: nat, storeError: Option<Utf16>,
                                 publicUrl: Utf16, isoNow: Utf16)
    ensures Post(Some(FormFile(name, 52428800, mimeType)), now, storeError, publicUrl, isoNow).status != 400
    ensures Post(Some(FormFile(name, 52428801, mimeType)), now, storeError, publicUrl, isoNow).status == 400
  {
  }

  /** The literals the route hard-codes agree with the configuration's
      defaults, "50MB" and "7d". */
  lemma RouteLiteralsMatchConfigDefaults()
    ensures Config.ParseFileSize(Config.DefaultMaxFileSize) == Some(MaxUploadBytes)
    ensures Config.ParseExpireTime(Config.DefaultExpireIn) == Some(ExpireInMs)
    ensures MaxUploadBytes == 52428800 && ExpireInMs == 604800000
  {
    Config.DefaultsParse();
  }

  /** "report.pdf" uploaded at 1000 is stored as "1000-604801000-report.pdf". */
  lemma ReportExample(file: FormFile, now: nat, publicUrl: Utf16, isoNow: Utf16)
    requires file.name == FromBmp("report.pdf") && file.size <= MaxUploadBytes && now == 1000
    ensures Post(Some(file), now, None, publicUrl, isoNow).uploadKey
      == Some(FromBmp("1000") + [Dash] + FromBmp("604801000") + [Dash] + FromBmp("report.pdf"))
  {
    assert Sanitize(file.name) == file.name;
    assert FromBmp("1000") == Decimal(now) by {
      DecimalOfThousand();
    }
    assert FromBmp("604801000") == Decimal(now + ExpireInMs) by {
      DecimalOfExpiry();
    }
  }

  /** The rendering of the example's upload time. */
  lemma DecimalOfThousand()
    ensures Decimal(1000) == [0x31, 0x30, 0x30, 0x30]
  {
    assert Decimal(1) == [0x31];
    assert Decimal(10) == [0x31, 0x30];
    assert Decimal(100) == [0x31, 0x30, 0x30];
  }

  /** The rendering of the example's expiry time, 1000 + 604800000. */
  lemma DecimalOfExpiry()
    ensures Decimal(604801000) == [0x36, 0x30, 0x34, 0x38, 0x30, 0x31, 0x30, 0x30, 0x30]
  {
    assert Decimal(6) == [0x36];
    assert Decimal(60) == [0x36, 0x30];
    assert Decimal(604) == [0x36, 0x30, 0x34];
    assert Decimal(6048) == [0x36, 0x30, 0x34, 0x38];
    assert Decimal(60480) == [0x36, 0x30, 0x34, 0x38, 0x30];
    assert Decimal(604801) == [0x36, 0x30, 0x34, 0x38, 0x30, 0x31];
    assert Decimal(6048010) == [0x36, 0x30, 0x34, 0x38, 0x30, 0x31, 0x30];
    assert Decimal(60480100) == [0x36, 0x30, 0x34, 0x38, 0x30, 0x31, 0x30, 0x30];
  }
}
