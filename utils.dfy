/** The URL builder every handler of the newer application uses
    (app/utils.py custom_url_for): it puts the configured application root in
    front of a URL unless the URL already starts with it. The URL Flask
    builds for an endpoint is taken as given. */
module Utils {
  /** `custom_url_for` over the already-built URL. */
  function CustomUrlFor(root: string, url: string): (r: string)
    ensures root <= r
    ensures r == url || r == root + url
    ensures root <= url ==> r == url
  {
    if root <= url then url else root + url
  }

  /** Prefixing twice is prefixing once. */
  lemma CustomUrlForIdempotent(root: string, url: string)
    ensures CustomUrlFor(root, CustomUrlFor(root, url)) == CustomUrlFor(root, url)
  {
  }

  /** With the empty root every URL is left as it is. */
  lemma CustomUrlForEmptyRoot(url: string)
    ensures CustomUrlFor("", url) == url
  {
  }

  /** A URL that does not start with the root gets it prepended, so the
      result is longer than the URL by exactly the root. */
  lemma CustomUrlForPrepends(root: string, url: string)
    requires !(root <= url)
    ensures CustomUrlFor(root, url) == root + url
    ensures |CustomUrlFor(root, url)| == |root| + |url|
  {
  }
}
