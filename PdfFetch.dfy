/** Fetching a work's text for summarisation (`download_pdf_text` and
    `get_text_for_work`): at most two GET requests, each only to a URL that
    passes the address policy of `UrlPolicy`, with the redirect followed by
    hand; the PDF's pages joined and truncated; the stored abstract as the
    fallback. The HTTP client, the URL parser, the resolver and the PDF text
    extractor are inputs. */
module PdfFetch {
  import opened Text
  import opened UrlPolicy

  /** What `requests.get(..., allow_redirects=False)` yields: a response
      (status, `Location` header if any, body bytes) or a raised error
      (timeout, refused connection, malformed URL). */
  datatype HttpResponse = Response(status: int, location: Option<string>, body: seq<bv8>) | NetworkError

  /** The collaborators the worker calls: `urlparse`, `getaddrinfo`, the
      address classes beyond the concrete IPv4 blocks, `requests.get`, and
      PyMuPDF turning a body into the text of each page (or failing). */
  datatype Fetcher = Fetcher(
    parse: string -> UrlParse,
    dns: string -> Resolution,
    special: IpAddress -> bool,
    get: string -> HttpResponse,
    pages: seq<bv8> -> Option<seq<string>>)

  /** Responses larger than 50 MiB are refused. */
  const MaxPdfBytes: nat := 50 * 1024 * 1024

  /** `requests`' redirect statuses. */
  predicate IsRedirectStatus(status: int) {
    status == 301 || status == 302 || status == 303 || status == 307 || status == 308
  }

  /** `resp.is_redirect and resp.headers.get("Location")`: a redirect status
      with a non-empty `Location`. */
  predicate FollowsRedirect(r: HttpResponse) {
    r.Response? && IsRedirectStatus(r.status) && r.location.Some? && r.location.value != ""
  }

  /** `raise_for_status` raises for 4xx and 5xx. */
  predicate ErrorStatus(status: int) {
    400 <= status < 600
  }

  predicate Safe(url: string, env: Fetcher) {
    SafeUrl(env.parse(url), env.dns, env.special)
  }

  /** The URLs the worker sends a GET to, in order. */
  function Requests(url: string, env: Fetcher): (r: seq<string>)
    ensures |r| <= 2
    ensures forall u :: u in r ==> Safe(u, env)
    ensures r != [] ==> r[0] == url
    ensures |r| == 2 ==> FollowsRedirect(env.get(url)) && r[1] == env.get(url).location.value
  {
    if !Safe(url, env) then []
    else if FollowsRedirect(env.get(url)) then
      var target := env.get(url).location.value;
      if Safe(target, env) then [url, target] else [url]
    else [url]
  }

  /** The text PyMuPDF reads from a final response: none on an error status,
      an oversized body or an unreadable document; none when the joined page
      texts are blank; otherwise the first `maxChars` characters. */
  function TextOfResponse(r: HttpResponse, env: Fetcher, maxChars: nat): (t: Option<string>)
    ensures t.Some? ==> r.Response? && !ErrorStatus(r.status) && |r.body| <= MaxPdfBytes
    ensures t.Some? ==> |t.value| <= maxChars
    ensures t.Some? ==> exists ps :: env.pages(r.body) == Some(ps)
                           && PyStrip(Join(ps, "\n")) != ""
                           && t.value == Take(Join(ps, "\n"), maxChars)
    ensures r.Response? && !ErrorStatus(r.status) && |r.body| <= MaxPdfBytes && env.pages(r.body).Some?
            && PyStrip(Join(env.pages(r.body).value, "\n")) != ""
            ==> t == Some(Take(Join(env.pages(r.body).value, "\n"), maxChars))
  {
    if r.NetworkError? || ErrorStatus(r.status) || |r.body| > MaxPdfBytes then None
    else match env.pages(r.body)
      case None => None
      case Some(ps) =>
        var whole := Join(ps, "\n");
        if PyStrip(whole) == "" then None else Some(Take(whole, maxChars))
  }

  /** What `download_pdf_text` returns: nothing when the URL or its redirect
      target is unsafe, else the text of the last response. */
  function PdfText(url: string, env: Fetcher, maxChars: nat): (t: Option<string>)
    ensures t.Some? ==> Safe(url, env)
    ensures t.Some? && FollowsRedirect(env.get(url)) ==> Safe(env.get(url).location.value, env)
    ensures Safe(url, env) && !FollowsRedirect(env.get(url)) ==> t == TextOfResponse(env.get(url), env, maxChars)
    ensures Safe(url, env) && FollowsRedirect(env.get(url)) && Safe(env.get(url).location.value, env)
            ==> t == TextOfResponse(env.get(env.get(url).location.value), env, maxChars)
  {
    var reqs := Requests(url, env);
    if reqs == [] || (FollowsRedirect(env.get(url)) && |reqs| == 1) then None
    else TextOfResponse(env.get(reqs[|reqs| - 1]), env, maxChars)
  }

  /** `download_pdf_text`: checks the URL, sends the first request, follows a
      redirect only to a safe `Location`, and reads the body of the last
      response. `sent` lists the URLs requested. */
  method DownloadPdfText(url: string, env: Fetcher, maxChars: nat)
    returns (text: Option<string>, sent: seq<string>)
    ensures sent == Requests(url, env)
    ensures text == PdfText(url, env, maxChars)
  {
    sent := [];
    var ok := IsSafeUrl(env.parse(url), env.dns, env.special);
    if !ok {
      return None, sent;
    }
    var resp := env.get(url);
    sent := sent + [url];
    if FollowsRedirect(resp) {
      var target := resp.location.value;
      ok := IsSafeUrl(env.parse(target), env.dns, env.special);
      if !ok {
        return None, sent;
      }
      resp := env.get(target);
      sent := sent + [target];
    }
    assert sent == Requests(url, env) && resp == env.get(sent[|sent| - 1]);
    assert PdfText(url, env, maxChars) == TextOfResponse(resp, env, maxChars);
    if resp.NetworkError? || ErrorStatus(resp.status) || |resp.body| > MaxPdfBytes {
      return None, sent;
    }
    var doc := env.pages(resp.body);
    if doc.None? {
      return None, sent;
    }
    var whole := Join(doc.value, "\n");
    if PyStrip(whole) == "" {
      return None, sent;
    }
    return Some(Take(whole, maxChars)), sent;
  }

  /** Truncation happens after the blankness test, so text that is not blank
      as a whole can still come back blank: `maxChars` spaces followed by a
      letter. */
  lemma TruncatedTextCanBeBlank(env: Fetcher, r: HttpResponse, maxChars: nat)
    requires r.Response? && r.status == 200 && |r.body| <= MaxPdfBytes
    requires env.pages(r.body) == Some([seq(maxChars, _ => ' ') + "x"])
    ensures TextOfResponse(r, env, maxChars) == Some(seq(maxChars, _ => ' '))
    ensures PyStrip(seq(maxChars, _ => ' ')) == ""
  {
    var s := seq(maxChars, _ => ' ') + "x";
    assert Join([s], "\n") == s;
    assert s[|s| - 1] == 'x' && !IsPySpace('x');
    assert !AllOf(s, IsPySpace) by { assert !IsPySpace(s[|s| - 1]); }
    assert Take(s, maxChars) == seq(maxChars, _ => ' ');
    assert AllOf(seq(maxChars, _ => ' '), IsPySpace);
  }

  /** What the `works` lookup by id yields: the row's abstract, or the error
      `.single()` raises when no row matches. */
  datatype AbstractLookup = Row(abstractText: Option<string>) | LookupError(message: string)

  /** The outcome of a step that may raise: a value, or the exception's text. */
  datatype Outcome<T> = Done(value: T) | Raised(message: string)

  /** Python truthiness of an optional string. */
  predicate Truthy(s: Option<string>) {
    s.Some? && s.value != ""
  }

  /** The resolution order of `get_text_for_work`, given the PDF text (none
      when there was no source URL): a non-empty PDF text, else a non-empty
      abstract, else nothing; the lookup's error propagates whenever the PDF
      gave nothing. */
  function ResolveText(pdf: Option<string>, lookup: AbstractLookup): (r: Outcome<Option<string>>)
    ensures Truthy(pdf) ==> r == Done(pdf)
    ensures r.Raised? <==> !Truthy(pdf) && lookup.LookupError?
    ensures r.Done? && r.value.Some? ==> r.value.value != ""
    ensures !Truthy(pdf) && lookup.Row? ==> (r.value.Some? <==> Truthy(lookup.abstractText))
    ensures r.Done? && r.value.Some? && !Truthy(pdf) ==> lookup == Row(r.value)
  {
    if Truthy(pdf) then Done(pdf)
    else match lookup
      case LookupError(msg) => Raised(msg)
      case Row(a) => if Truthy(a) then Done(a) else Done(None)
  }

  /** `get_text_for_work`: downloads the PDF only when the job carries a
      non-empty source URL, then falls back to the abstract. */
  method GetTextForWork(sourceUrl: Option<string>, lookup: AbstractLookup, env: Fetcher, maxChars: nat)
    returns (r: Outcome<Option<string>>, sent: seq<string>)
    ensures !Truthy(sourceUrl) ==> sent == [] && r == ResolveText(None, lookup)
    ensures Truthy(sourceUrl) ==>
              sent == Requests(sourceUrl.value, env)
              && r == ResolveText(PdfText(sourceUrl.value, env, maxChars), lookup)
    ensures forall u :: u in sent ==> Safe(u, env)
  {
    var pdf: Option<string> := None;
    sent := [];
    if Truthy(sourceUrl) {
      pdf, sent := DownloadPdfText(sourceUrl.value, env, maxChars);
      if Truthy(pdf) {
        return Done(pdf), sent;
      }
    }
    r := ResolveText(pdf, lookup);
  }
}
