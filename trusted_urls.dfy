/**
 * The trusted-origin registrar of detoxic.py: the module-level list
 * `TRUSTED_URLS`, loaded from `trusted_urls.yaml` at start-up, and the route
 * `/add_trusted_url`, which checks a shared password, refuses a URL already in
 * the list, and otherwise appends the URL and rewrites the file.
 *
 * The list is the field `urls` of a `Registry` object. The file is the ghost
 * field `persisted`: the content last written to (or read from) disk.
 */
module TrustedUrls {
  import opened Wrappers

  /** The password used when `TRUSTED_URLS_PASSWORD` is not set. */
  const DefaultPassword: string := "changeme"

  const UnauthorizedError: string := "Unauthorized"
  const DuplicateError: string := "URL already in trusted list"

  /** The JSON object `/add_trusted_url` returns. */
  datatype Response = Response(success: bool, error: Option<string>, trustedUrls: Option<seq<string>>)

  /** No URL occurs twice. */
  predicate NoDuplicates(urls: seq<string>) {
    forall i, j :: 0 <= i < j < |urls| ==> urls[i] != urls[j]
  }

  /** The number of entries equal to `url`. */
  function Occurrences(urls: seq<string>, url: string): nat {
    if urls == [] then 0
    else (if urls[|urls| - 1] == url then 1 else 0) + Occurrences(urls[..|urls| - 1], url)
  }

  /** The list after one request: grown by the URL exactly when the password
      matches and the URL is new. */
  function Registered(urls: seq<string>, password: string, url: string, presented: string): (r: seq<string>)
    ensures forall u :: u in r <==> u in urls || (u == url && presented == password)
    ensures |r| <= |urls| + 1
  {
    if presented == password && url !in urls then urls + [url] else urls
  }

  class Registry {
    /** `TRUSTED_URLS`, in insertion order. */
    var urls: seq<string>
    /** `TRUSTED_URLS_PASSWORD`. */
    const password: string
    /** The list as `trusted_urls.yaml` holds it. */
    ghost var persisted: seq<string>

    /** Start-up: the `trusted_urls` entry of the file, or the empty list when
        the entry is missing, and the password from the environment, or the
        default when the variable is unset. */
    constructor (fileEntry: Option<seq<string>>, passwordVariable: Option<string>)
      ensures urls == fileEntry.GetOr([]) && persisted == urls
      ensures password == passwordVariable.GetOr(DefaultPassword)
    {
      urls := fileEntry.GetOr([]);
      persisted := fileEntry.GetOr([]);
      password := passwordVariable.GetOr(DefaultPassword);
    }

    /** The route `/add_trusted_url`. */
    method AddTrustedUrl(url: string, presented: string) returns (resp: Response)
      modifies this
      ensures presented != password ==>
        resp == Response(false, Some(UnauthorizedError), None)
        && urls == old(urls) && persisted == old(persisted)
      ensures presented == password && url in old(urls) ==>
        resp == Response(false, Some(DuplicateError), Some(old(urls)))
        && urls == old(urls) && persisted == old(persisted)
      ensures presented == password && url !in old(urls) ==>
        resp == Response(true, None, Some(urls))
        && urls == old(urls) + [url] && persisted == urls
      ensures urls == Registered(old(urls), password, url, presented)
      ensures NoDuplicates(old(urls)) ==> NoDuplicates(urls)
    {
      if presented != password {
        return Response(false, Some(UnauthorizedError), None);
      }
      if url in urls {
        return Response(false, Some(DuplicateError), Some(urls));
      }
      RegisteredKeepsNoDuplicates(urls, password, url, presented);
      urls := urls + [url];
      persisted := urls;
      return Response(true, None, Some(urls));
    }
  }

  // -------------------------------------------------------------------- lemmas

  /** A URL occurs in the list exactly when it is counted there. */
  lemma {:induction false} OccurrencesMembership(urls: seq<string>, url: string)
    ensures Occurrences(urls, url) > 0 <==> url in urls
  {
    if urls != [] {
      var front := urls[..|urls| - 1];
      OccurrencesMembership(front, url);
      assert urls == front + [urls[|urls| - 1]];
    }
  }

  /** Registration never makes a list hold a URL twice. */
  lemma RegisteredKeepsNoDuplicates(urls: seq<string>, password: string, url: string, presented: string)
    ensures NoDuplicates(urls) ==> NoDuplicates(Registered(urls, password, url, presented))
  {
    var next := Registered(urls, password, url, presented);
    if NoDuplicates(urls) && next != urls {
      forall i, j | 0 <= i < j < |next| ensures next[i] != next[j] {
        if j == |urls| {
          assert next[i] == urls[i];
        }
      }
    }
  }

  /** After an accepted password the URL is in the list exactly once, whatever
      the answer was, provided the list held no URL twice before. */
  lemma RegisteredOnce(urls: seq<string>, password: string, url: string)
    requires NoDuplicates(urls)
    ensures Occurrences(Registered(urls, password, url, password), url) == 1
  {
    var next := Registered(urls, password, url, password);
    RegisteredKeepsNoDuplicates(urls, password, url, password);
    OccurrencesMembership(next, url);
    ExactlyOnce(next, url);
  }

  /** In a list without repetitions a present URL is counted once. */
  lemma {:induction false} ExactlyOnce(urls: seq<string>, url: string)
    requires NoDuplicates(urls) && url in urls
    ensures Occurrences(urls, url) == 1
  {
    var front, last := urls[..|urls| - 1], urls[|urls| - 1];
    assert urls == front + [last];
    if last == url {
      OccurrencesMembership(front, url);
    } else {
      ExactlyOnce(front, url);
    }
  }

  /** After a request with the correct password the URL is listed, so
      repeating the request is a duplicate and changes nothing. */
  lemma RepeatIsDuplicate(urls: seq<string>, password: string, url: string)
    ensures var next := Registered(urls, password, url, password);
      url in next && Registered(next, password, url, password) == next
  {
    var next := Registered(urls, password, url, password);
    assert url in next by {
      if url !in urls {
        assert next[|urls|] == url;
      }
    }
  }

  /** The registry only ever grows at its end: what was listed before keeps
      its place. */
  lemma RegisteredExtends(urls: seq<string>, password: string, url: string, presented: string)
    ensures var next := Registered(urls, password, url, presented);
      |urls| <= |next| <= |urls| + 1 && next[..|urls|] == urls
  {
  }
}
