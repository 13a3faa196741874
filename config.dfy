/** The settings read from the environment at start-up (config.ts): the size
    and duration unit parsers and the CDN base URL. */
module Config {
  import opened Text

  /** Bytes per unit of a size suffix: no suffix, or KB, MB, GB in any letter
      case (powers of 1024). */
  function SizeFactor(suffix: Utf16): (f: Option<nat>)
    ensures f.Some? ==> f.value >= 1
    ensures f.Some? && suffix != [] ==> |suffix| == 2 && !IsDigit(suffix[0])
  {
    if suffix == [] then Some(1)
    else if |suffix| != 2 || ToUpper(suffix[1]) != 0x42 then None  // 'B'
    else if ToUpper(suffix[0]) == 0x4B then Some(1024)              // 'K'
    else if ToUpper(suffix[0]) == 0x4D then Some(1024 * 1024)       // 'M'
    else if ToUpper(suffix[0]) == 0x47 then Some(1024 * 1024 * 1024) // 'G'
    else None
  }

  /** Milliseconds per unit of a duration suffix: no suffix, or one of s, m,
      h, d in any letter case. */
  function TimeFactor(suffix: Utf16): (f: Option<nat>)
    ensures f.Some? ==> f.value >= 1
    ensures f.Some? && suffix != [] ==> |suffix| == 1 && !IsDigit(suffix[0])
  {
    if suffix == [] then Some(1)
    else if |suffix| != 1 then None
    else if ToLower(suffix[0]) == 0x73 then Some(1000)                // 's'
    else if ToLower(suffix[0]) == 0x6D then Some(60 * 1000)           // 'm'
    else if ToLower(suffix[0]) == 0x68 then Some(60 * 60 * 1000)      // 'h'
    else if ToLower(suffix[0]) == 0x64 then Some(24 * 60 * 60 * 1000) // 'd'
    else None
  }

  /** The size suffix table: KB, MB and GB in any letter case, and no suffix,
      each with its own factor, and nothing else. */
  lemma SizeSuffixes(suffix: Utf16)
    ensures SizeFactor(suffix) == Some(1) <==> suffix == []
    ensures SizeFactor(suffix) == Some(1024) <==> SameUpToCase(suffix, FromBmp("KB"))
    ensures SizeFactor(suffix) == Some(1024 * 1024) <==> SameUpToCase(suffix, FromBmp("MB"))
    ensures SizeFactor(suffix) == Some(1024 * 1024 * 1024) <==> SameUpToCase(suffix, FromBmp("GB"))
    ensures SizeFactor(suffix).Some? ==>
      || suffix == []
      || SameUpToCase(suffix, FromBmp("KB"))
      || SameUpToCase(suffix, FromBmp("MB"))
      || SameUpToCase(suffix, FromBmp("GB"))
  {
  }

  /** The duration suffix table: s, m, h and d in any letter case, and no
      suffix, each with its own factor, and nothing else. */
  lemma TimeSuffixes(suffix: Utf16)
    ensures TimeFactor(suffix) == Some(1) <==> suffix == []
    ensures TimeFactor(suffix) == Some(1000) <==> SameUpToCase(suffix, FromBmp("s"))
    ensures TimeFactor(suffix) == Some(60 * 1000) <==> SameUpToCase(suffix, FromBmp("m"))
    ensures TimeFactor(suffix) == Some(60 * 60 * 1000) <==> SameUpToCase(suffix, FromBmp("h"))
    ensures TimeFactor(suffix) == Some(24 * 60 * 60 * 1000) <==> SameUpToCase(suffix, FromBmp("d"))
    ensures TimeFactor(suffix).Some? ==>
      || suffix == []
      || SameUpToCase(suffix, FromBmp("s"))
      || SameUpToCase(suffix, FromBmp("m"))
      || SameUpToCase(suffix, FromBmp("h"))
      || SameUpToCase(suffix, FromBmp("d"))
  {
  }

  /** `parseFileSize`: `^(\d+)(KB|MB|GB)?$` case-insensitively, giving bytes.
      A string that does not match falls back to `Number(size)` in the
      source; here it is `None`. */
  function ParseFileSize(size: Utf16): (r: Option<nat>)
    // a match starts with a digit and ends with a digit or the `B` of a unit
    ensures r.Some? ==> |size| > 0 && IsDigit(size[0])
    ensures r.Some? ==> IsDigit(size[|size| - 1]) || ToUpper(size[|size| - 1]) == 0x42
  {
    var k := LeadingDigits(size);
    if k == 0 then None
    else match SizeFactor(size[k..])
      case None => None
      case Some(f) => Some(DigitsValue(size[..k]) * f)
  }

  /** `parseExpireTime`: `^(\d+)([dhms])?$` case-insensitively, giving
      milliseconds; a string that does not match is `None`. */
  function ParseExpireTime(expire: Utf16): (r: Option<nat>)
    // a match starts with a digit and ends with a digit or a unit letter
    ensures r.Some? ==> |expire| > 0 && IsDigit(expire[0])
    ensures r.Some? ==> IsDigit(expire[|expire| - 1]) || ToLower(expire[|expire| - 1]) in {0x73, 0x6D, 0x68, 0x64}
  {
    var k := LeadingDigits(expire);
    if k == 0 then None
    else match TimeFactor(expire[k..])
      case None => None
      case Some(f) => Some(DigitsValue(expire[..k]) * f)
  }

  /** A digit run followed by an accepted suffix parses to the run's value
      times the suffix's factor. */
  lemma FileSizeOf(digits: Utf16, suffix: Utf16)
    requires |digits| > 0 && AllDigits(digits)
    requires SizeFactor(suffix).Some?
    ensures ParseFileSize(digits + suffix) == Some(DigitsValue(digits) * SizeFactor(suffix).value)
  {
    LeadingDigitsOf(digits, suffix);
    assert (digits + suffix)[..|digits|] == digits;
    assert (digits + suffix)[|digits|..] == suffix;
  }

  lemma ExpireTimeOf(digits: Utf16, suffix: Utf16)
    requires |digits| > 0 && AllDigits(digits)
    requires TimeFactor(suffix).Some?
    ensures ParseExpireTime(digits + suffix) == Some(DigitsValue(digits) * TimeFactor(suffix).value)
  {
    LeadingDigitsOf(digits, suffix);
    assert (digits + suffix)[..|digits|] == digits;
    assert (digits + suffix)[|digits|..] == suffix;
  }

  /** The strings `parseFileSize` matches are exactly a non-empty digit run
      followed by an accepted suffix. */
  lemma FileSizeMatches(size: Utf16)
    ensures ParseFileSize(size).Some? <==>
      exists k :: 0 < k <= |size| && AllDigits(size[..k]) && SizeFactor(size[k..]).Some?
  {
    var n := LeadingDigits(size);
    if ParseFileSize(size).Some? {
      assert 0 < n <= |size| && AllDigits(size[..n]) && SizeFactor(size[n..]).Some?;
    }
    forall k | 0 < k <= |size| && AllDigits(size[..k]) && SizeFactor(size[k..]).Some?
      ensures ParseFileSize(size).Some?
    {
      LeadingDigitsOf(size[..k], size[k..]);
      assert size[..k] + size[k..] == size;
    }
  }

  /** The strings `parseExpireTime` matches are exactly a non-empty digit run
      followed by an accepted suffix. */
  lemma ExpireTimeMatches(expire: Utf16)
    ensures ParseExpireTime(expire).Some? <==>
      exists k :: 0 < k <= |expire| && AllDigits(expire[..k]) && TimeFactor(expire[k..]).Some?
  {
    var n := LeadingDigits(expire);
    if ParseExpireTime(expire).Some? {
      assert 0 < n <= |expire| && AllDigits(expire[..n]) && TimeFactor(expire[n..]).Some?;
    }
    forall k | 0 < k <= |expire| && AllDigits(expire[..k]) && TimeFactor(expire[k..]).Some?
      ensures ParseExpireTime(expire).Some?
    {
      LeadingDigitsOf(expire[..k], expire[k..]);
      assert expire[..k] + expire[k..] == expire;
    }
  }

  /** Size suffixes are case-insensitive: "50mb" reads as "50MB". */
  lemma FileSizeIgnoresCase(s: Utf16, t: Utf16)
    requires SameUpToCase(s, t)
    ensures ParseFileSize(s) == ParseFileSize(t)
  {
    LeadingDigitsUpToCase(s, t);
    var k := LeadingDigits(s);
    assert SameUpToCase(s[k..], t[k..]) by {
      forall i | 0 <= i < |s| - k ensures ToUpper(s[k..][i]) == ToUpper(t[k..][i]) {
        assert s[k..][i] == s[k + i] && t[k..][i] == t[k + i];
      }
    }
  }

  /** Duration suffixes are case-insensitive: "7D" reads as "7d". */
  lemma ExpireTimeIgnoresCase(s: Utf16, t: Utf16)
    requires SameUpToCase(s, t)
    ensures ParseExpireTime(s) == ParseExpireTime(t)
  {
    LeadingDigitsUpToCase(s, t);
    var k := LeadingDigits(s);
    if |s| - k == 1 {
      assert s[k..][0] == s[k] && t[k..][0] == t[k];
      CaseFoldsAgree(s[k], t[k]);
    }
  }

  /** With a fixed suffix, the size in bytes is at least the number written
      and grows with it. */
  lemma FileSizeMonotone(smaller: Utf16, larger: Utf16, suffix: Utf16)
    requires |smaller| > 0 && AllDigits(smaller) && |larger| > 0 && AllDigits(larger)
    requires DigitsValue(smaller) <= DigitsValue(larger)
    requires SizeFactor(suffix).Some?
    ensures ParseFileSize(smaller + suffix).Some? && ParseFileSize(larger + suffix).Some?
    ensures DigitsValue(smaller) <= ParseFileSize(smaller + suffix).value <= ParseFileSize(larger + suffix).value
  {
    FileSizeOf(smaller, suffix);
    FileSizeOf(larger, suffix);
    var f := SizeFactor(suffix).value;
    assert DigitsValue(smaller) * f <= DigitsValue(larger) * f by {
      MultiplyMonotone(DigitsValue(smaller), DigitsValue(larger), f);
    }
    MultiplyMonotone(1, f, DigitsValue(smaller));
  }

  /** With a fixed suffix, the duration in milliseconds is at least the number
      written and grows with it. */
  lemma ExpireTimeMonotone(smaller: Utf16, larger: Utf16, suffix: Utf16)
    requires |smaller| > 0 && AllDigits(smaller) && |larger| > 0 && AllDigits(larger)
    requires DigitsValue(smaller) <= DigitsValue(larger)
    requires TimeFactor(suffix).Some?
    ensures ParseExpireTime(smaller + suffix).Some? && ParseExpireTime(larger + suffix).Some?
    ensures DigitsValue(smaller) <= ParseExpireTime(smaller + suffix).value <= ParseExpireTime(larger + suffix).value
  {
    ExpireTimeOf(smaller, suffix);
    ExpireTimeOf(larger, suffix);
    var f := TimeFactor(suffix).value;
    MultiplyMonotone(DigitsValue(smaller), DigitsValue(larger), f);
    MultiplyMonotone(1, f, DigitsValue(smaller));
  }

  lemma MultiplyMonotone(a: nat, b: nat, f: nat)
    requires a <= b
    ensures a * f <= b * f
  {
  }

  /** The defaults used when the variables are unset. */
  const DefaultMaxFileSize: Utf16 := FromBmp("50MB")
  const DefaultExpireIn: Utf16 := FromBmp("7d")

  /** "50MB" is 50 MiB and "7d" is seven days in milliseconds. */
  lemma DefaultsParse()
    ensures ParseFileSize(DefaultMaxFileSize) == Some(52428800)
    ensures ParseExpireTime(DefaultExpireIn) == Some(604800000)
  {
    assert DefaultMaxFileSize == [0x35, 0x30] + [0x4D, 0x42];
    assert DigitsValue([0x35, 0x30]) == 50 by {
      assert [0x35, 0x30][..1] == [0x35];
    }
    FileSizeOf([0x35, 0x30], [0x4D, 0x42]);
    assert DefaultExpireIn == [0x37] + [0x64];
    var seven: Utf16 := [0x37];
    assert DigitsValue(seven) == 7 by {
      assert seven[..0] == [];
    }
    ExpireTimeOf([0x37], [0x64]);
  }

  /** `process.env.NAME || fallback`: an unset or empty variable gives the
      fallback. */
  function OrElse(v: Option<Utf16>, fallback: Utf16): Utf16
  {
    if v.Some? && v.value != [] then v.value else fallback
  }

  /** `replace(/\/$/, "")`: drops one `/` at the very end, if there is one. */
  function StripTrailingSlash(url: Utf16): (r: Utf16)
    ensures r <= url
    ensures r == url <==> url == [] || url[|url| - 1] != Slash
    ensures r != url ==> r + [Slash] == url
  {
    if url != [] && url[|url| - 1] == Slash then url[..|url| - 1] else url
  }

  /** The environment variables config.ts reads that the core depends on. */
  datatype Environment = Environment(maxFileSize: Option<Utf16>, expireIn: Option<Utf16>, cdnUrl: Option<Utf16>)

  /** The `Config` object built from them. */
  datatype Settings = Settings(maxFileSize: Option<nat>, expireInMs: Option<nat>, cdnUrl: Utf16)

  /** The `Config` object: an unset or empty variable takes its default, and
      the CDN URL, when set, loses at most one trailing `/`. */
  function Load(env: Environment): (r: Settings)
    ensures env.maxFileSize in {None, Some([])} ==> r.maxFileSize == Some(52428800)
    ensures env.expireIn in {None, Some([])} ==> r.expireInMs == Some(604800000)
    ensures env.maxFileSize.Some? && env.maxFileSize.value != [] ==>
      r.maxFileSize == ParseFileSize(env.maxFileSize.value)
    ensures env.expireIn.Some? && env.expireIn.value != [] ==>
      r.expireInMs == ParseExpireTime(env.expireIn.value)
    ensures env.cdnUrl.Some? ==> r.cdnUrl == StripTrailingSlash(env.cdnUrl.value)
    ensures env.cdnUrl.Some? ==> r.cdnUrl <= env.cdnUrl.value && |env.cdnUrl.value| <= |r.cdnUrl| + 1
    ensures env.cdnUrl.None? ==> r.cdnUrl == []
  {
    DefaultsParse();
    Settings(
      ParseFileSize(OrElse(env.maxFileSize, DefaultMaxFileSize)),
      ParseExpireTime(OrElse(env.expireIn, DefaultExpireIn)),
      match env.cdnUrl
        case None => []
        case Some(url) => StripTrailingSlash(url))
  }

  /** With nothing set, the limit is 50 MiB, the lifetime seven days and
      there is no CDN URL; an empty variable counts as unset. */
  lemma LoadDefaults(env: Environment)
    requires env.maxFileSize in {None, Some([])} && env.expireIn in {None, Some([])} && env.cdnUrl in {None, Some([])}
    ensures Load(env) == Settings(Some(50 * 1024 * 1024), Some(7 * 24 * 60 * 60 * 1000), [])
  {
  }

  /** Only one trailing slash goes: "https://cdn//" becomes "https://cdn/". */
  lemma CdnUrlLosesOneSlash(base: Utf16)
    ensures Load(Environment(None, None, Some(base + [Slash, Slash]))).cdnUrl == base + [Slash]
    ensures Load(Environment(None, None, Some(base + [Slash]))).cdnUrl == base
  {
    assert (base + [Slash, Slash])[..|base| + 1] == base + [Slash];
    assert (base + [Slash])[..|base|] == base;
  }
}
