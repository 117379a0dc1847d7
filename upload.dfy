/** The upload function (api/file_upload/index.js): it sanitises the requested file name, names
    the blob after the current time and that name, makes sure the container exists and answers
    with a URL signed for creating and writing that blob during an hour. The clock, the container
    call, the blob URL and the signing are parameters. */
module Upload {
  import opened Wrappers
  import opened Http

  const Container: string := "file-attachment-storage"
  const DefaultName: string := "file"
  const Failure: string := "Failed to create SAS URL"
  /** One hour, in milliseconds. */
  const ValidityMs: int := 60 * 60 * 1000

  /** The characters `[\w.\-]` matches: ASCII letters and digits, `_`, `.` and `-`. */
  predicate Clean(c: char) {
    ('a' <= c <= 'z') || ('A' <= c <= 'Z') || ('0' <= c <= '9') || c == '_' || c == '.' || c == '-'
  }

  predicate AllClean(s: string) {
    forall i :: 0 <= i < |s| ==> Clean(s[i])
  }

  /** `s` without its leading characters outside the class. */
  function DropUnclean(s: string): (r: string)
    ensures |r| <= |s| && r == s[|s| - |r|..]
    ensures r == "" || Clean(r[0])
    ensures forall i :: 0 <= i < |s| - |r| ==> !Clean(s[i])
    decreases |s|
  {
    if |s| > 0 && !Clean(s[0]) then DropUnclean(s[1..]) else s
  }

  /** `s.replace(/[^\w.\-]+/g, "_")`: each maximal run of characters outside the class becomes
      one `_`. */
  function Sanitize(s: string): string
    decreases |s|
  {
    if |s| == 0 then ""
    else if Clean(s[0]) then [s[0]] + Sanitize(s[1..])
    else "_" + Sanitize(DropUnclean(s[1..]))
  }

  /** The sanitised name, from `req.query.filename || "file"`. */
  function FileName(requested: Option<string>): string {
    Sanitize(if requested.Some? && requested.value != "" then requested.value else DefaultName)
  }

  /** `String(n)` for a whole number: its decimal digits. */
  function Decimal(n: nat): (s: string)
    ensures |s| > 0
    ensures forall i :: 0 <= i < |s| ==> '0' <= s[i] <= '9'
    decreases n
  {
    if n < 10 then [(n + '0' as int) as char] else Decimal(n / 10) + [(n % 10 + '0' as int) as char]
  }

  /** The value of a string of decimal digits. */
  function DigitsValue(s: string): nat
    requires forall i :: 0 <= i < |s| ==> '0' <= s[i] <= '9'
    decreases |s|
  {
    if |s| == 0 then 0 else DigitsValue(s[..|s| - 1]) * 10 + (s[|s| - 1] as int - '0' as int)
  }

  /** `${Date.now()}-${filename}` */
  function BlobName(time: nat, fileName: string): string {
    Decimal(time) + "-" + fileName
  }

  /** The position of the first `-`, if any. */
  function FirstDash(s: string): (k: Option<nat>)
    ensures k.Some? ==> k.value < |s| && s[k.value] == '-' && forall i :: 0 <= i < k.value ==> s[i] != '-'
    ensures k.None? ==> forall i :: 0 <= i < |s| ==> s[i] != '-'
    decreases |s|
  {
    if |s| == 0 then None
    else if s[0] == '-' then Some(0)
    else match FirstDash(s[1..]) case None => None case Some(k) => Some(k + 1)
  }

  /** Taking a blob name apart: the time before the first `-` and the file name after it. */
  function ParseBlobName(b: string): Option<(nat, string)> {
    match FirstDash(b)
    case None => None
    case Some(k) =>
      if k > 0 && forall i :: 0 <= i < k ==> '0' <= b[i] <= '9' then Some((DigitsValue(b[..k]), b[k + 1..])) else None
  }

  /** The function's surroundings:
      - `account`: `AZURE_STORAGE_ACCOUNT_NAME`;
      - `nameTime` and `signTime`: the two `Date.now()` calls, for the name and for the expiry;
      - `containerReady`: whether `createIfNotExists` resolved;
      - `encode`: how the SDK escapes a blob name in the blob's URL;
      - `sign`: `generateBlobSASQueryParameters(...).toString()`, or the message of what it throws. */
  datatype Env = Env(account: string, nameTime: nat, signTime: int, containerReady: bool,
                     encode: string -> string, sign: SasRequest -> Result<string>)

  /** `containerClient.getBlockBlobClient(blobName).url`: the service URL of the client made at
      api/file_upload/index.js:14, then the container and the escaped blob name. */
  function BlobUrl(env: Env, blobName: string): string {
    BlobHost(env.account) + "/" + Container + "/" + env.encode(blobName)
  }

  function SasFor(env: Env, blobName: string): SasRequest {
    SasRequest(Container, blobName, "cw", env.signTime + ValidityMs, None)
  }

  /** The whole function: the response it sets for the requested file name. */
  function Handle(requested: Option<string>, env: Env): Response {
    var blobName := BlobName(env.nameTime, FileName(requested));
    if !env.containerReady then Response(500, [], Failure)
    else
      match env.sign(SasFor(env, blobName))
      case Err(_) => Response(500, [], Failure)
      case Ok(sas) => Response(200, [Header("Content-Type", "text/plain")], BlobUrl(env, blobName) + "?" + sas)
  }

  // ----- Sanitising -----

  /** The sanitised name holds only characters of the class. */
  lemma {:induction false} SanitizeClean(s: string)
    ensures AllClean(Sanitize(s))
    decreases |s|
  {
    if |s| > 0 {
      if Clean(s[0]) {
        SanitizeClean(s[1..]);
        CleanCons(s[0], Sanitize(s[1..]));
      } else {
        SanitizeClean(DropUnclean(s[1..]));
        CleanCons('_', Sanitize(DropUnclean(s[1..])));
      }
    }
  }

  lemma CleanCons(c: char, s: string)
    requires Clean(c) && AllClean(s)
    ensures AllClean([c] + s)
  {
    assert forall i :: 0 < i < |[c] + s| ==> ([c] + s)[i] == s[i - 1];
  }

  /** A name made only of class characters is unchanged. */
  lemma {:induction false} SanitizeOfClean(s: string)
    requires AllClean(s)
    ensures Sanitize(s) == s
    decreases |s|
  {
    if |s| > 0 {
      assert AllClean(s[1..]) by {
        assert forall i :: 0 <= i < |s[1..]| ==> s[1..][i] == s[i + 1];
      }
      SanitizeOfClean(s[1..]);
      assert s == [s[0]] + s[1..];
    }
  }

  /** Sanitising is idempotent. */
  lemma SanitizeIdempotent(s: string)
    ensures Sanitize(Sanitize(s)) == Sanitize(s)
  {
    SanitizeClean(s);
    SanitizeOfClean(Sanitize(s));
  }

  /** Exactly the names outside the class change. */
  lemma SanitizeChangesIffUnclean(s: string)
    ensures Sanitize(s) == s <==> AllClean(s)
  {
    SanitizeClean(s);
    if AllClean(s) {
      SanitizeOfClean(s);
    }
  }

  /** A run of characters outside the class, however long, becomes one `_`. */
  lemma RunBecomesOne(run: string, rest: string)
    requires |run| > 0 && forall i :: 0 <= i < |run| ==> !Clean(run[i])
    requires rest == "" || Clean(rest[0])
    ensures Sanitize(run + rest) == "_" + Sanitize(rest)
  {
    var s := run + rest;
    DropRun(run, rest);
    assert s[0] == run[0];
    UncleanHead(s);
  }

  /** A name that starts outside the class: one `_`, then the rest after the run. */
  lemma UncleanHead(s: string)
    requires |s| > 0 && !Clean(s[0])
    ensures DropUnclean(s) == DropUnclean(s[1..])
    ensures Sanitize(s) == "_" + Sanitize(DropUnclean(s))
  {
  }

  lemma {:induction false} DropRun(run: string, rest: string)
    requires forall i :: 0 <= i < |run| ==> !Clean(run[i])
    requires rest == "" || Clean(rest[0])
    ensures DropUnclean(run + rest) == rest
    decreases |run|
  {
    if |run| == 0 {
      assert run + rest == rest;
    } else {
      assert (run + rest)[0] == run[0];
      assert (run + rest)[1..] == run[1..] + rest;
      DropRun(run[1..], rest);
    }
  }

  /** The file name is never empty: an absent or empty request gives `file`, and sanitising a
      non-empty name gives a non-empty one. */
  lemma FileNameNotEmpty(requested: Option<string>)
    ensures FileName(requested) != "" && AllClean(FileName(requested))
    ensures !(requested.Some? && requested.value != "") ==> FileName(requested) == DefaultName
  {
    SanitizeClean(if requested.Some? && requested.value != "" then requested.value else DefaultName);
    if !(requested.Some? && requested.value != "") {
      SanitizeOfClean(DefaultName);
    }
  }

  // ----- The blob name -----

  lemma {:induction false} DecimalValue(n: nat)
    ensures DigitsValue(Decimal(n)) == n
    decreases n
  {
    var d := Decimal(n);
    if n >= 10 {
      DecimalValue(n / 10);
      assert d[..|d| - 1] == Decimal(n / 10);
    }
  }

  lemma FirstDashAfter(p: string, rest: string)
    requires forall i :: 0 <= i < |p| ==> p[i] != '-'
    ensures FirstDash(p + "-" + rest) == Some(|p|)
  {
    var b := p + "-" + rest;
    assert b[|p|] == '-';
    assert forall i :: 0 <= i < |p| ==> b[i] == p[i];
  }

  /** The blob name gives back the time and the file name it was made from, so two different
      uploads named at different times never share a blob. */
  lemma BlobNameRoundTrip(time: nat, fileName: string)
    ensures ParseBlobName(BlobName(time, fileName)) == Some((time, fileName))
  {
    var d := Decimal(time);
    var b := BlobName(time, fileName);
    FirstDashAfter(d, fileName);
    assert b[..|d|] == d;
    assert b[|d| + 1..] == fileName;
    DecimalValue(time);
  }

  lemma BlobNameInjective(t1: nat, f1: string, t2: nat, f2: string)
    requires BlobName(t1, f1) == BlobName(t2, f2)
    ensures t1 == t2 && f1 == f2
  {
    BlobNameRoundTrip(t1, f1);
    BlobNameRoundTrip(t2, f2);
  }

  // ----- The response -----

  /** With the container ready and the signature made, the answer is 200 `text/plain` holding the
      blob's URL and the signature; the link creates and writes, for one hour, the blob named
      after the time and the sanitised file name. */
  lemma Answers(requested: Option<string>, env: Env, sas: string)
    requires env.containerReady
    requires env.sign(SasFor(env, BlobName(env.nameTime, FileName(requested)))) == Ok(sas)
    ensures var blobName := BlobName(env.nameTime, FileName(requested));
      var signed := SasFor(env, blobName);
      && Handle(requested, env) == Response(200, [Header("Content-Type", "text/plain")],
           BlobHost(env.account) + "/" + Container + "/" + env.encode(blobName) + "?" + sas)
      && ParseBlobName(signed.blobName) == Some((env.nameTime, FileName(requested)))
      && signed.permissions == "cw" && signed.expiresOn == env.signTime + 3600000 && signed.container == Container
  {
    BlobNameRoundTrip(env.nameTime, FileName(requested));
  }

  /** Any failure gives 500 with the fixed message. */
  lemma Fails(requested: Option<string>, env: Env)
    requires !env.containerReady || env.sign(SasFor(env, BlobName(env.nameTime, FileName(requested)))).Err?
    ensures Handle(requested, env) == Response(500, [], Failure)
  {
  }
}
