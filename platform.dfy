/**
 * The host services the importer consults and cannot see into: the current locale's names for
 * language codes, whether `URL(string:)` accepts a string, and a URL's last path component.
 */
module Platform {
  import opened Wrappers

  /**
   * The host environment: `languageNames` plays `Locale.current.localizedString(forLanguageCode:)`
   * and `isValidUrl` says whether `URL(string:)` returns a URL. URLs are kept as their text.
   */
  datatype Host = Host(languageNames: map<string, string>, isValidUrl: string -> bool)

  /** `Locale.current.localizedString(forLanguageCode: code)`. */
  function LocalizedLanguageName(h: Host, code: string): (r: Option<string>)
    ensures r.Some? <==> code in h.languageNames
  {
    if code in h.languageNames then Some(h.languageNames[code]) else None
  }

  /** The text after the final `/` of `s` (all of `s` when it has none). */
  function AfterLastSlash(s: string): (r: string)
    ensures '/' !in r
    ensures |r| <= |s|
    decreases |s|
  {
    if s == [] then []
    else if s[|s| - 1] == '/' then []
    else AfterLastSlash(s[..|s| - 1]) + [s[|s| - 1]]
  }

  /**
   * `URL.lastPathComponent`, approximated on the URL's text: the segment after the final `/`,
   * a single trailing `/` being ignored.
   */
  function LastPathComponent(url: string): (r: string)
    ensures '/' !in r
  {
    if |url| > 0 && url[|url| - 1] == '/' then AfterLastSlash(url[..|url| - 1]) else AfterLastSlash(url)
  }

  /** A URL that ends in `/segment` has `segment` as its last path component. */
  lemma {:induction false} LastPathComponentOfSegment(prefix: string, segment: string)
    requires |prefix| > 0 && prefix[|prefix| - 1] == '/'
    requires segment != [] && '/' !in segment
    ensures LastPathComponent(prefix + segment) == segment
  {
    AfterLastSegment(prefix, segment);
  }

  lemma {:induction false} AfterLastSegment(prefix: string, segment: string)
    requires |prefix| > 0 && prefix[|prefix| - 1] == '/'
    requires '/' !in segment
    ensures AfterLastSlash(prefix + segment) == segment
    decreases |segment|
  {
    var s := prefix + segment;
    if segment == [] {
      assert s == prefix;
    } else {
      var last := segment[|segment| - 1];
      assert s[|s| - 1] == last;
      assert s[..|s| - 1] == prefix + segment[..|segment| - 1];
      AfterLastSegment(prefix, segment[..|segment| - 1]);
      assert segment == segment[..|segment| - 1] + [last];
    }
  }
}
