/** `urlparse.urlunsplit` of Python 2.7, for an empty query and fragment. */
module Urls {
  import opened Text

  /** The first three fields of `urlparse.urlparse(url)`. */
  datatype UrlParts = UrlParts(scheme: string, netloc: string, path: string)

  /** `urlparse.uses_netloc` */
  const UsesNetloc: set<string> := {
    "ftp", "http", "gopher", "nntp", "telnet", "imap", "wais", "file", "mms", "https", "shttp",
    "snews", "prospero", "rtsp", "rtspu", "rsync", "", "svn", "svn+ssh", "sftp", "nfs", "git", "git+ssh"
  }

  /** `urlunsplit((scheme, netloc, path, "", ""))` */
  function Unsplit(scheme: string, netloc: string, path: string): string {
    var url :=
      if netloc != "" || (scheme != "" && scheme in UsesNetloc && !StartsWith(path, "//")) then
        "//" + netloc + (if path != "" && !StartsWith(path, "/") then "/" + path else path)
      else path;
    if scheme != "" then scheme + ":" + url else url
  }

  /**
   * With a scheme and a host, the URL is `scheme://netloc` followed by the
   * path, a relative path being made absolute with one `/`.
   */
  lemma UnsplitWithHost(scheme: string, netloc: string, path: string)
    requires scheme != "" && netloc != ""
    ensures StartsWith(path, "/") ==> Unsplit(scheme, netloc, path) == scheme + "://" + netloc + path
    ensures !StartsWith(path, "/") && path != "" ==>
              Unsplit(scheme, netloc, path) == scheme + "://" + netloc + "/" + path
  {
  }
}
