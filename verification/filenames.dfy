/**
  Two helpers of utils.py: `sanitize_filename`, which turns a post title
  into a file name, and `is_image_url`, which tells image links apart.
  `is_image_url` receives the URL already split into its path and its host
  (`urlparse` is not part of this model).
 */
module FileNames {
  import opened Common

  /** The character class `[<>:"/\\|?*\x00-\x1f]`. */
  predicate Illegal(c: char)
  {
    c == '<' || c == '>' || c == ':' || c == '"' || c == '/' || c == '\\' || c == '|' || c == '?' || c == '*' ||
    c as int < 0x20
  }

  predicate NoIllegal(s: string)
  {
    forall c :: c in s ==> !Illegal(c)
  }

  /** `strip('. ')` removes only these two characters. */
  predicate DotOrSpace(c: char)
  {
    c == '.' || c == ' '
  }

  /** The name returned for a name that cleans down to nothing. */
  const Unnamed: string := "unnamed"

  /** `re.sub(r'[<>:"/\\|?*\x00-\x1f]', '_', s)`: every illegal character
      becomes `_`, every other one stays. */
  function ReplaceIllegal(s: string): (r: string)
    ensures |r| == |s| && NoIllegal(r)
    ensures forall i :: 0 <= i < |s| && !Illegal(s[i]) ==> r[i] == s[i]
    ensures forall i :: 0 <= i < |s| && Illegal(s[i]) ==> r[i] == '_'
  {
    var r := seq(|s|, i requires 0 <= i < |s| => if Illegal(s[i]) then '_' else s[i]);
    assert forall c :: c in r ==> exists i :: 0 <= i < |r| && r[i] == c;
    r
  }

  /** `s.lstrip('. ')`: the leading dots and spaces removed. */
  function LTrim(s: string): (r: string)
    ensures |r| <= |s| && r == s[|s| - |r|..]
    ensures r == [] || !DotOrSpace(r[0])
    ensures forall i :: 0 <= i < |s| - |r| ==> DotOrSpace(s[i])
  {
    if s != [] && DotOrSpace(s[0]) then
      var r := LTrim(s[1..]);
      assert s[1..][|s| - 1 - |r|..] == s[|s| - |r|..];
      assert forall i :: 1 <= i < |s| - |r| ==> s[i] == s[1..][i - 1];
      r
    else s
  }

  /** `s.rstrip('. ')`: the trailing dots and spaces removed. */
  function RTrim(s: string): (r: string)
    ensures |r| <= |s| && r == s[..|r|]
    ensures r == [] || !DotOrSpace(r[|r| - 1])
    ensures forall i :: |r| <= i < |s| ==> DotOrSpace(s[i])
  {
    if s != [] && DotOrSpace(s[|s| - 1]) then RTrim(s[..|s| - 1]) else s
  }

  /** `r` is `s` with the dots and spaces `s[..k]` and a suffix of dots and
      spaces removed. */
  predicate TrimmedAt(s: string, r: string, k: nat)
  {
    k + |r| <= |s| && s[k..k + |r|] == r &&
    (forall i :: 0 <= i < k ==> DotOrSpace(s[i])) &&
    (forall i :: k + |r| <= i < |s| ==> DotOrSpace(s[i]))
  }

  /** `s.strip('. ')`: `s` with dots and spaces removed from both ends and
      nothing else, so that neither end of the result is a dot or a space. */
  function Trim(s: string): (r: string)
    ensures |r| <= |s| && forall c :: c in r ==> c in s
    ensures r == [] || (!DotOrSpace(r[0]) && !DotOrSpace(r[|r| - 1]))
    ensures exists k: nat :: TrimmedAt(s, r, k)
  {
    var t := LTrim(s);
    var r := RTrim(t);
    TrimShape(s, t, r);
    r
  }

  lemma TrimShape(s: string, t: string, r: string)
    requires |t| <= |s| && t == s[|s| - |t|..] && (t == [] || !DotOrSpace(t[0]))
    requires forall i :: 0 <= i < |s| - |t| ==> DotOrSpace(s[i])
    requires |r| <= |t| && r == t[..|r|] && (r == [] || !DotOrSpace(r[|r| - 1]))
    requires forall i :: |r| <= i < |t| ==> DotOrSpace(t[i])
    ensures TrimmedAt(s, r, |s| - |t|)
    ensures r == [] || !DotOrSpace(r[0])
    ensures forall c :: c in r ==> c in s
  {
    var k := |s| - |t|;
    assert r == s[k..k + |r|] by {
      forall i | 0 <= i < |r| ensures r[i] == s[k + i] {
        assert r[i] == t[i];
      }
    }
    forall i | k + |r| <= i < |s| ensures DotOrSpace(s[i]) {
      assert s[i] == t[i - k];
    }
    forall c | c in r ensures c in s {
      var i :| 0 <= i < |r| && r[i] == c;
      assert s[k + i] == c;
    }
    if r != [] {
      assert r[0] == t[0];
    }
  }

  /** `r` is `filename` with its illegal characters replaced by `_` and
      the dots and spaces `filename[..k]` and a suffix of dots and spaces
      removed. */
  predicate CleanedAt(filename: string, r: string, k: nat)
  {
    k + |r| <= |filename| &&
    (forall i :: 0 <= i < |r| ==> r[i] == if Illegal(filename[k + i]) then '_' else filename[k + i]) &&
    (forall i :: 0 <= i < k ==> DotOrSpace(filename[i])) &&
    (forall i :: k + |r| <= i < |filename| ==> DotOrSpace(filename[i]))
  }

  /** The name before truncation: illegal characters replaced, then dots
      and spaces trimmed from both ends. */
  function Cleaned(filename: string): (r: string)
    ensures NoIllegal(r)
    ensures r == [] || (!DotOrSpace(r[0]) && !DotOrSpace(r[|r| - 1]))
    ensures exists k: nat :: CleanedAt(filename, r, k)
  {
    var replaced := ReplaceIllegal(filename);
    var r := Trim(replaced);
    var k: nat :| TrimmedAt(replaced, r, k);
    CleanedFrom(filename, replaced, r, k);
    r
  }

  /** Trimming the replaced name trims the same positions of the original,
      since dots and spaces are legal and so never replaced. */
  lemma CleanedFrom(filename: string, replaced: string, r: string, k: nat)
    requires replaced == ReplaceIllegal(filename) && TrimmedAt(replaced, r, k)
    ensures CleanedAt(filename, r, k)
  {
    forall i | 0 <= i < |r| ensures r[i] == if Illegal(filename[k + i]) then '_' else filename[k + i] {
      assert r[i] == replaced[k + i];
    }
    forall i | 0 <= i < |filename| && DotOrSpace(replaced[i]) ensures DotOrSpace(filename[i]) {
    }
  }

  /** Some character before index `d` is not a dot. */
  predicate NonDotBefore(s: string, d: nat)
    requires d <= |s|
  {
    exists k :: 0 <= k < d && s[k] != '.'
  }

  /** `os.path.splitext(s)` for a name without path separators: the
      extension runs from the last dot, unless everything before that dot
      is dots as well. */
  function SplitExt(s: string): (parts: (string, string))
    ensures parts.0 + parts.1 == s
    ensures parts.1 == [] || (parts.1[0] == '.' && '.' !in parts.1[1..])
    ensures parts.1 == [] <==> '.' !in s || (forall k :: 0 <= k < |s| && s[k] == '.' ==> !NonDotBefore(s, k))
  {
    match RFind(s, '.')
    case None => (s, "")
    case Some(d) =>
      if NonDotBefore(s, d) then
        assert forall i :: 1 <= i < |s| - d ==> s[d..][i] == s[d + i];
        (s[..d], s[d..])
      else
        assert forall k :: 0 <= k < |s| && s[k] == '.' ==> !NonDotBefore(s, k) by {
          forall k | 0 <= k < |s| && s[k] == '.' ensures !NonDotBefore(s, k) {
            assert k <= d;
          }
        }
        (s, "")
  }

  /** Python's `s[:stop]`, where a negative `stop` counts from the end. */
  function SliceTo(s: string, stop: int): (r: string)
    ensures |r| <= |s| && r == s[..|r|]
    ensures 0 <= stop <= |s| ==> |r| == stop
    ensures stop < 0 && |s| + stop >= 0 ==> |r| == |s| + stop
  {
    if stop >= |s| then s
    else if stop >= 0 then s[..stop]
    else if |s| + stop > 0 then s[..|s| + stop]
    else []
  }

  /** The name truncated to `maxLength` as `sanitize_filename` does it. */
  function Shortened(cleaned: string, maxLength: int): string
  {
    var (name, ext) := SplitExt(cleaned);
    SliceTo(name, maxLength - |ext| - 1) + ext
  }

  /** `sanitize_filename(filename, max_length)`. */
  function SanitizeFilename(filename: string, maxLength: int): (r: string)
    ensures r != []
  {
    var cleaned := Cleaned(filename);
    var limited := if |cleaned| > maxLength then Shortened(cleaned, maxLength) else cleaned;
    if limited == [] then Unnamed else limited
  }

  /** Truncation only drops characters. */
  lemma ShortenedKeepsCharacters(cleaned: string, maxLength: int)
    ensures forall c :: c in Shortened(cleaned, maxLength) ==> c in cleaned
  {
    var parts := SplitExt(cleaned);
    var name, ext := parts.0, parts.1;
    var cut := SliceTo(name, maxLength - |ext| - 1);
    assert cleaned == name + ext;
    assert cut == name[..|cut|];
    forall c | c in cut + ext
      ensures c in cleaned
    {
      if c in cut {
        var i :| 0 <= i < |cut| && cut[i] == c;
        assert cleaned[i] == c;
      } else {
        var i :| 0 <= i < |ext| && ext[i] == c;
        assert cleaned[|name| + i] == c;
      }
    }
  }

  /** No illegal character survives, and the result is never empty. */
  lemma SanitizedLegal(filename: string, maxLength: int)
    ensures var r := SanitizeFilename(filename, maxLength);
      r != [] && NoIllegal(r)
  {
    if SanitizeFilename(filename, maxLength) == Unnamed {
      UnnamedLegal();
    } else {
      ShortenedKeepsCharacters(Cleaned(filename), maxLength);
    }
  }

  lemma UnnamedLegal()
    ensures Unnamed != [] && NoIllegal(Unnamed)
  {
    assert Unnamed == ['u', 'n', 'n', 'a', 'm', 'e', 'd'];
  }

  /** Without truncation the name is the cleaned one (or `unnamed`), and
      it neither starts nor ends with a dot or a space. */
  lemma SanitizedUntruncated(filename: string, maxLength: int)
    requires |Cleaned(filename)| <= maxLength
    ensures var r := SanitizeFilename(filename, maxLength);
      r == (if Cleaned(filename) == [] then Unnamed else Cleaned(filename)) &&
      !DotOrSpace(r[0]) && !DotOrSpace(r[|r| - 1])
  {
    assert Unnamed == ['u', 'n', 'n', 'a', 'm', 'e', 'd'];
  }

  /** A cleaned name over the limit whose extension is shorter than the
      limit keeps that extension and is cut to one less than the limit. */
  lemma SanitizedTruncated(filename: string, maxLength: int)
    requires |Cleaned(filename)| > maxLength
    requires |SplitExt(Cleaned(filename)).1| < maxLength
    ensures var ext := SplitExt(Cleaned(filename)).1;
      var r := SanitizeFilename(filename, maxLength);
      (maxLength > 1 ==> |r| == maxLength - 1 && EndsWith(r, ext)) &&
      (maxLength == 1 ==> r == Unnamed)
  {
    var cleaned := Cleaned(filename);
    var (name, ext) := SplitExt(cleaned);
    var cut := SliceTo(name, maxLength - |ext| - 1);
    assert |cut| == maxLength - |ext| - 1;
    assert (cut + ext)[|cut + ext| - |ext|..] == ext;
  }

  /** A cleaned name holding a dot past its first character always has an
      extension when it is truncated. */
  lemma DottedNameHasExtension(filename: string, k: nat)
    requires k < |Cleaned(filename)| && Cleaned(filename)[k] == '.'
    ensures SplitExt(Cleaned(filename)).1 != []
  {
    var cleaned := Cleaned(filename);
    assert !DotOrSpace(cleaned[0]);
    assert k > 0;
    assert NonDotBefore(cleaned, k);
  }

  /** When the extension alone reaches the limit, the result is at least
      as long as the limit: the negative slice bound cuts from the end of
      the stem instead of capping the length. */
  lemma LongExtensionOverflows(filename: string, maxLength: int)
    requires |Cleaned(filename)| > maxLength
    requires |SplitExt(Cleaned(filename)).1| >= maxLength
    ensures |SanitizeFilename(filename, maxLength)| >= maxLength
  {
  }

  // ---------------------------------------------------------------------
  // `is_image_url`

  const ImageExtensions: seq<string> := [".jpg", ".jpeg", ".png", ".gif", ".webp", ".bmp", ".svg"]

  const ImageDomains: seq<string> := ["imgur.com", "img.nga.cn", "pic.nga.cn"]

  /** `any(s.endswith(x) for x in suffixes)`. */
  function AnyEndsWith(s: string, suffixes: seq<string>): (r: bool)
    ensures r <==> exists k :: 0 <= k < |suffixes| && EndsWith(s, suffixes[k])
  {
    if suffixes == [] then false
    else EndsWith(s, suffixes[0]) || AnyEndsWith(s, suffixes[1..])
  }

  /** `any(x in s for x in parts)`. */
  function AnyContained(s: string, parts: seq<string>): (r: bool)
    ensures r <==> exists k :: 0 <= k < |parts| && Contains(s, parts[k])
  {
    if parts == [] then false
    else Contains(s, parts[0]) || AnyContained(s, parts[1..])
  }

  /** `is_image_url` for a URL whose path is `path` and whose host is
      `netloc`. */
  function IsImageUrl(path: string, netloc: string): bool
  {
    AnyEndsWith(Lower(path), ImageExtensions) || AnyContained(netloc, ImageDomains)
  }

  /** True exactly when the lower-cased path ends with a listed extension or
      the host, as written, contains a listed domain. */
  lemma IsImageUrlSpec(path: string, netloc: string)
    ensures IsImageUrl(path, netloc) <==>
      (exists k :: 0 <= k < |ImageExtensions| && EndsWith(Lower(path), ImageExtensions[k])) ||
      (exists k :: 0 <= k < |ImageDomains| && Contains(netloc, ImageDomains[k]))
  {
  }

  /** Lower-casing is idempotent. */
  lemma LowerIdempotent(s: string)
    ensures Lower(Lower(s)) == Lower(s)
  {
    assert forall i :: 0 <= i < |s| ==> LowerChar(LowerChar(s[i])) == LowerChar(s[i]);
  }

  /** The extension test ignores the case of the path. */
  lemma PathCaseIgnored(path: string, netloc: string)
    ensures IsImageUrl(Lower(path), netloc) == IsImageUrl(path, netloc)
  {
    LowerIdempotent(path);
  }

  /** The domain test is case-sensitive: an upper-case host of a listed
      service with no image extension does not count. */
  lemma HostCaseMatters()
    ensures !IsImageUrl("/a", "IMGUR.COM")
  {
    assert Lower("/a") == "/a";
    assert !Contains("IMGUR.COM", "imgur.com") by {
      forall i: nat | i <= |"IMGUR.COM"| ensures !StartsAt("IMGUR.COM", i, "imgur.com") {
        if i == 0 {
          assert "IMGUR.COM"[0] != "imgur.com"[0];
        }
      }
    }
    assert !Contains("IMGUR.COM", "img.nga.cn");
    assert !Contains("IMGUR.COM", "pic.nga.cn");
  }

  /** Any host containing a listed domain, such as a subdomain of it,
      counts whatever the path. */
  lemma HostOfServiceCounts(path: string, netloc: string, k: nat)
    requires k < |ImageDomains| && Contains(netloc, ImageDomains[k])
    ensures IsImageUrl(path, netloc)
  {
  }
}
