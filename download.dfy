/** The download function (api/file_download/index.js): it validates the blob name, puts it under
    the `data/` prefix, derives the name the browser saves the file as, and redirects to a
    read-only link signed for fifteen minutes. The URI decoding and encoding, the signing and the
    clock are parameters. */
module Download {
  import opened Wrappers
  import opened Text
  import opened Http

  const Container: string := "vectorbase-file-storage"
  const Prefix: string := "data/"
  const MissingFn: string := "Missing 'fn' (blob name) in route or query"
  const Fallback: string := "download"
  /** Fifteen minutes, in milliseconds. */
  const ValidityMs: int := 15 * 60 * 1000
  const CacheControl: string := "private, max-age=30"

  /** The parts of the request the function reads: `fn` from the route and from the query, and the
      query's `downloadName`. */
  datatype Request = Request(routeFn: Option<string>, queryFn: Option<string>, downloadName: Option<string>)

  /** The function's surroundings:
      - `account`: `AZURE_STORAGE_ACCOUNT_NAME`;
      - `now`: `Date.now()`;
      - `decode`: `decodeURIComponent`, which throws (Err) on a malformed escape;
      - `encode`: `encodeURIComponent`;
      - `sign`: `generateBlobSASQueryParameters(...).toString()` with the account key, or the
        message of what it throws. */
  datatype Env = Env(account: string, now: int, decode: string -> Result<string>, encode: string -> string,
                     sign: SasRequest -> Result<string>)

  /** `context.bindingData?.fn ?? req.query?.fn`: the route value whenever it is present, even
      when it is empty. */
  function RawName(req: Request): Option<string> {
    if req.routeFn.Some? then req.routeFn else req.queryFn
  }

  /** `!raw` */
  predicate Missing(raw: Option<string>) {
    raw.None? || raw.value == ""
  }

  /** The decoded name under the `data/` prefix, which is added unless already there. */
  function BlobName(decoded: string): string {
    if StartsWith(decoded, Prefix) then decoded else Prefix + decoded
  }

  /** `s.split("/").pop()`: the text after the last `/`, or all of `s` when it has none. */
  function LastSegment(s: string): (r: string)
    ensures '/' !in r && EndsWith(s, r)
    ensures '/' in s ==> EndsWith(s, "/" + r)
    ensures '/' !in s ==> r == s
    decreases |s|
  {
    if |s| == 0 then ""
    else if s[|s| - 1] == '/' then ""
    else
      var init := s[..|s| - 1];
      assert s == init + [s[|s| - 1]];
      LastSegment(init) + [s[|s| - 1]]
  }

  /** `.replace(/"/g, "'")` */
  function NoQuotes(s: string): (r: string)
    ensures |r| == |s|
    ensures forall i :: 0 <= i < |s| ==> r[i] == if s[i] == '"' then '\'' else s[i]
    ensures '"' !in r
    decreases |s|
  {
    if |s| == 0 then "" else [if s[0] == '"' then '\'' else s[0]] + NoQuotes(s[1..])
  }

  /** The name the browser saves the file as. */
  function DownloadName(requested: Option<string>, blobName: string): string {
    var pick :=
      if requested.Some? && requested.value != "" then requested.value
      else if LastSegment(blobName) != "" then LastSegment(blobName)
      else Fallback;
    NoQuotes(pick)
  }

  /** The Content-Disposition the link is signed with. */
  function Disposition(name: string): string {
    "attachment; filename=\"" + name + "\""
  }

  /** What is signed for a blob and a download name. */
  function SasFor(env: Env, blobName: string, name: string): SasRequest {
    SasRequest(Container, blobName, "r", env.now + ValidityMs, Some(Disposition(name)))
  }

  /** The redirect target: the blob's URL, its name encoded, with the signature as the query. */
  function SasUrl(env: Env, blobName: string, sas: string): string {
    BlobHost(env.account) + "/" + Container + "/" + env.encode(blobName) + "?" + sas
  }

  /** The whole function: the response it sets. */
  function Handle(req: Request, env: Env): Response {
    var raw := RawName(req);
    if Missing(raw) then Response(400, [], MissingFn)
    else
      match env.decode(raw.value)
      case Err(message) => Response(500, [], message)
      case Ok(decoded) =>
        var blobName := BlobName(decoded);
        var name := DownloadName(req.downloadName, blobName);
        match env.sign(SasFor(env, blobName, name))
        case Err(message) => Response(500, [], message)
        case Ok(sas) =>
          Response(302, [Header("Location", SasUrl(env, blobName, sas)), Header("Cache-Control", CacheControl)], "")
  }

  // ----- Validation -----

  /** A missing or empty `fn` gets 400, whatever the surroundings: nothing is decoded or signed. */
  lemma MissingNameRejected(req: Request, env: Env, other: Env)
    requires Missing(RawName(req))
    ensures Handle(req, env) == Response(400, [], MissingFn)
    ensures Handle(req, env) == Handle(req, other)
  {
  }

  /** An empty `fn` in the route is not replaced by the query's: `??` only skips an absent value. */
  lemma EmptyRouteNameRejected(routeQuery: Option<string>, downloadName: Option<string>, env: Env)
    ensures Handle(Request(Some(""), routeQuery, downloadName), env).status == 400
  {
  }

  /** Every other request gets a redirect or a server error, never 400. */
  lemma PresentNameNotRejected(req: Request, env: Env)
    requires !Missing(RawName(req))
    ensures Handle(req, env).status == 302 || Handle(req, env).status == 500
  {
  }

  // ----- The blob name -----

  /** The blob name is under the prefix, a name already there is kept, and so normalising twice
      is normalising once. */
  lemma BlobNameNormal(decoded: string)
    ensures StartsWith(BlobName(decoded), Prefix)
    ensures StartsWith(decoded, Prefix) ==> BlobName(decoded) == decoded
    ensures BlobName(BlobName(decoded)) == BlobName(decoded)
  {
    var b := BlobName(decoded);
    if !StartsWith(decoded, Prefix) {
      assert b[..|Prefix|] == Prefix;
    }
  }

  // ----- The download name -----

  /** The download name is the requested one when it is not empty, else the blob's last path
      segment when that is not empty, else `download`; with every `"` turned into `'`. */
  lemma DownloadNameChoice(requested: Option<string>, blobName: string)
    ensures requested.Some? && requested.value != "" ==> DownloadName(requested, blobName) == NoQuotes(requested.value)
    ensures !(requested.Some? && requested.value != "") && LastSegment(blobName) != "" ==>
              DownloadName(requested, blobName) == NoQuotes(LastSegment(blobName))
    ensures !(requested.Some? && requested.value != "") && LastSegment(blobName) == "" ==>
              DownloadName(requested, blobName) == Fallback
  {
    if !(requested.Some? && requested.value != "") && LastSegment(blobName) == "" {
      NoQuotesOfPlain(Fallback);
    }
  }

  /** So the download name holds no `"` and is never empty. */
  lemma DownloadNameSafe(requested: Option<string>, blobName: string)
    ensures '"' !in DownloadName(requested, blobName) && DownloadName(requested, blobName) != ""
  {
  }

  lemma {:induction false} NoQuotesOfPlain(s: string)
    requires '"' !in s
    ensures NoQuotes(s) == s
    decreases |s|
  {
    if |s| > 0 {
      NoQuotesOfPlain(s[1..]);
    }
  }

  // ----- Content-Disposition -----

  /** Reading a quoted-string (section 2.2 of RFC 2616, which section 4.1 of RFC 6266 uses for
      `filename`) from just after its opening quote to the end of the header: a backslash quotes
      the next character, a quote must be the last character. */
  function Unquote(s: string): Option<string>
    decreases |s|
  {
    if |s| == 0 then None
    else if s[0] == '"' then (if |s| == 1 then Some("") else None)
    else if s[0] == '\\' then
      (if |s| < 2 then None else match Unquote(s[2..]) case None => None case Some(r) => Some([s[1]] + r))
    else match Unquote(s[1..]) case None => None case Some(r) => Some([s[0]] + r)
  }

  const DispositionHead: string := "attachment; filename=\""

  /** The file name a client reads from an `attachment; filename="…"` header. */
  function FilenameOf(header: string): Option<string> {
    if StartsWith(header, DispositionHead) then Unquote(header[|DispositionHead|..]) else None
  }

  lemma {:induction false} UnquoteShorter(s: string, r: string)
    requires Unquote(s) == Some(r)
    ensures |r| < |s|
    decreases |s|
  {
    if s[0] == '\\' {
      UnquoteShorter(s[2..], Unquote(s[2..]).value);
    } else if s[0] != '"' {
      UnquoteShorter(s[1..], Unquote(s[1..]).value);
    }
  }

  lemma {:induction false} UnquotePlain(name: string)
    requires '"' !in name && '\\' !in name
    ensures Unquote(name + "\"") == Some(name)
    decreases |name|
  {
    if |name| == 0 {
      assert name + "\"" == "\"";
    } else {
      var s := name + "\"";
      assert s[0] == name[0] && s[1..] == name[1..] + "\"";
      UnquotePlain(name[1..]);
      assert [name[0]] + name[1..] == name;
    }
  }

  lemma {:induction false} UnquoteBackslash(name: string)
    requires '"' !in name && '\\' in name
    ensures Unquote(name + "\"") != Some(name)
    decreases |name|
  {
    var s := name + "\"";
    if name[0] == '\\' {
      if |name| >= 2 {
        var rest := Unquote(s[2..]);
        if rest.Some? {
          UnquoteShorter(s[2..], rest.value);
          assert |s[2..]| == |name| - 1;
        }
      }
    } else {
      assert s[1..] == name[1..] + "\"";
      UnquoteBackslash(name[1..]);
    }
  }

  /** The header is `attachment; filename="<download name>"`, and a client reads the download name
      back from it exactly when the name holds no backslash; a backslash would start a quoted
      pair, since only `"` is replaced. */
  lemma DispositionReadsBack(requested: Option<string>, blobName: string)
    ensures var name := DownloadName(requested, blobName);
      FilenameOf(Disposition(name)) == Some(name) <==> '\\' !in name
  {
    var name := DownloadName(requested, blobName);
    DownloadNameSafe(requested, blobName);
    var h := Disposition(name);
    assert h == DispositionHead + (name + "\"");
    assert h[..|DispositionHead|] == DispositionHead;
    assert h[|DispositionHead|..] == name + "\"";
    if '\\' in name {
      UnquoteBackslash(name);
    } else {
      UnquotePlain(name);
    }
  }

  // ----- The response -----

  /** With the name decoded and the link signed, the response is a 302 to the signed URL of the
      normalised blob, cacheable privately for thirty seconds; the link reads only, expires fifteen
      minutes after now and carries the Content-Disposition. */
  lemma Redirects(req: Request, env: Env, decoded: string, sas: string)
    requires !Missing(RawName(req)) && env.decode(RawName(req).value) == Ok(decoded)
    requires env.sign(SasFor(env, BlobName(decoded), DownloadName(req.downloadName, BlobName(decoded)))) == Ok(sas)
    ensures var blobName := BlobName(decoded);
      var signed := SasFor(env, blobName, DownloadName(req.downloadName, blobName));
      && Handle(req, env).status == 302
      && Handle(req, env).headers == [Header("Location", BlobHost(env.account) + "/" + Container + "/" + env.encode(blobName) + "?" + sas),
                                      Header("Cache-Control", CacheControl)]
      && signed.blobName == blobName && StartsWith(signed.blobName, Prefix)
      && signed.permissions == "r" && signed.expiresOn == env.now + 900000
      && signed.contentDisposition == Some("attachment; filename=\"" + DownloadName(req.downloadName, blobName) + "\"")
  {
    BlobNameNormal(decoded);
  }

  /** A name that does not decode, or a signature that fails, gives 500 with the error's message. */
  lemma Failures(req: Request, env: Env, message: string)
    requires !Missing(RawName(req))
    ensures env.decode(RawName(req).value) == Err(message) ==> Handle(req, env) == Response(500, [], message)
    ensures env.decode(RawName(req).value).Ok? ==>
      var blobName := BlobName(env.decode(RawName(req).value).value);
      env.sign(SasFor(env, blobName, DownloadName(req.downloadName, blobName))) == Err(message) ==>
        Handle(req, env) == Response(500, [], message)
  {
  }
}
