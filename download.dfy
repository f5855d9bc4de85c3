/**
 * Saving the image of an attachment to query_image.jpg before it is solved
 * (callback.php:242-255): a direct download written to the file, with a curl
 * download into the same file as the fallback.
 */
module Download {
  import opened Wrappers
  import opened Php

  /** The outside world the download touches: what `@file_get_contents($url)`
      returns (`None` for false), whether query_image.jpg can be written, and
      the bytes the file holds after the curl download of `url`. */
  datatype Web = Web(get: string -> Option<seq<byte>>, writable: bool, curl: string -> seq<byte>)

  /** `@file_put_contents(SAVE_IMAGE_PATH, $data)`: the number of bytes written,
      or `None` (false) when the file cannot be written. A false `$data` is
      written as the empty string. */
  function PutFile(web: Web, data: Option<seq<byte>>): Option<nat> {
    if web.writable then Some(|data.GetOr([])|) else None
  }

  /** The bytes query_image.jpg holds afterwards, as written: the fallback runs
      only when `$ok === false`, that is, only when the write fails. */
  function SavedAsWritten(web: Web, url: string): seq<byte> {
    var data := web.get(url);
    var ok := PutFile(web, data);
    if ok.None? then web.curl(url) else data.GetOr([])
  }

  /** The download as evidently intended: the fallback runs whenever the first
      attempt leaves nothing in the file (`if (!$ok)`, a failed write or zero
      bytes written). */
  function Saved(web: Web, url: string): seq<byte> {
    var data := web.get(url);
    var ok := PutFile(web, data);
    if ok.None? || ok.value == 0 then web.curl(url) else data.GetOr([])
  }

  /** As written, a failed direct download never reaches the curl fallback: the
      file is left empty even when curl would have fetched the image. */
  lemma FallbackSkippedOnFailedDownload(web: Web, url: string)
    requires web.writable && web.get(url).None?
    ensures SavedAsWritten(web, url) == []
    ensures web.curl(url) != [] ==> SavedAsWritten(web, url) != Saved(web, url)
  {
  }

  /** A concrete case: the direct download fails, the file is writable and curl
      gets one byte; the image is lost as written and kept by the fallback. */
  lemma FallbackSkippedExample(url: string)
    ensures var web := Web(u => None, true, u => [0x89]);
      SavedAsWritten(web, url) == [] && Saved(web, url) == [0x89]
  {
  }

  /** With the fallback in place, the file holds the direct download when that
      got something and could be written, and otherwise what curl fetched: an
      image either route gets is in the file. */
  lemma SavedKeepsAnyDownload(web: Web, url: string)
    ensures web.writable && web.get(url).Some? && web.get(url).value != [] ==>
      Saved(web, url) == web.get(url).value
    ensures !(web.writable && web.get(url).Some? && web.get(url).value != []) ==>
      Saved(web, url) == web.curl(url)
    ensures Saved(web, url) == [] ==>
      web.curl(url) == [] && !(web.writable && web.get(url).Some? && web.get(url).value != [])
  {
  }

  /** The two agree whenever the direct download succeeds or the write fails. */
  lemma SavedAgrees(web: Web, url: string)
    requires !web.writable || (web.get(url).Some? && web.get(url).value != [])
    ensures SavedAsWritten(web, url) == Saved(web, url)
  {
  }
}
