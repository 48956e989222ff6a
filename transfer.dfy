/** The decisions of the pack's transfer over HTTP: the host's probe and
    `/get` handlers, and the receiving side's credential, fetch address and
    outcome. Requests, responses and the archive bytes are not modelled; a
    header that may be absent is an Option. */
module Transfer {
  import opened PathText
  import opened Pack

  /** The host only serves archives: its file name must end in ".zip". */
  predicate HostAccepts(file: string)
  {
    EndsWith(file, ".zip")
  }

  /** The archive a pack has just written can always be hosted next, whichever
      naming was used. */
  lemma PackedArchiveIsHostable(name: string, disableUuid: bool, uuid: string)
    ensures HostAccepts(PackFileName(name, disableUuid, uuid))
  {
  }

  /** The JSON body of the probe at '/'. */
  datatype ProbeReply = ProbeReply(requiresPassword: bool)

  /** The probe handler: it announces a password exactly when the host was
      given a non-empty one. */
  function Index(password: string): (r: ProbeReply)
    ensures r.requiresPassword <==> password != ""
  {
    ProbeReply(password != "")
  }

  /** What `/get` answers: the hosted file, offered for download under the
      name "packnow.zip", or an unauthorised refusal with its JSON error. */
  datatype GetReply =
    | ServeFile(path: string, filename: string)
    | Unauthorized(error: string)

  /** The `/get` handler. Without a password every request is served; with
      one, the Authorization header must be present and equal to it. */
  function Get(password: string, authorization: Option<string>, file: string): (r: GetReply)
    ensures r.ServeFile? <==> password == "" || authorization == Some(password)
    ensures r.ServeFile? ==> r.path == file && r.filename == "packnow.zip"
    ensures r.Unauthorized? ==> StatusOf(r) == 401 && r.error == "password"
  {
    if password != "" && authorization != Some(password) then Unauthorized("password")
    else ServeFile(file, "packnow.zip")
  }

  /** The HTTP status of a reply: 200 for the file, 401 for a refusal. */
  function StatusOf(r: GetReply): (status: int)
    ensures status == 200 <==> r.ServeFile?
  {
    match r
    case ServeFile(_, _) => 200
    case Unauthorized(_) => 401
  }

  /** The value the receiver sends as Authorization: the password typed at
      the prompt when the probe asked for one, the empty text otherwise. */
  function Credential(requiresPassword: bool, entered: string): (c: string)
    ensures requiresPassword ==> c == entered
    ensures !requiresPassword ==> c == ""
  {
    if requiresPassword then entered else ""
  }

  /** The download address: "get" appended after a trailing '/', "/get"
      otherwise. A '/' is added only when the address lacks one at its end;
      an address ending in "//" keeps both. */
  function FetchUrl(url: string): (r: string)
    ensures StartsWith(r, url) && EndsWith(r, "/get")
    ensures |r| == |url| + (if EndsWith(url, "/") then 3 else 4)
  {
    if EndsWith(url, "/") then
      var r := url + "get";
      assert r[..|url|] == url;
      assert r[|r| - 4..] == url[|url| - 1..] + "get";
      r
    else
      var r := url + "/get";
      assert r[..|url|] == url;
      assert r[|r| - 4..] == "/get";
      r
  }

  /** A trailing '/' on the address the user gives makes no difference. */
  lemma FetchUrlIgnoresTrailingSlash(url: string)
    requires !EndsWith(url, "/")
    ensures FetchUrl(url + "/") == FetchUrl(url)
  {
    var u := url + "/";
    assert u[|u| - 1..] == "/";
    assert u + "get" == url + "/get";
  }

  /** How the receiver ends: the archive is extracted after a 200; otherwise
      it reports a wrong password when the probe asked for one, and a failed
      fetch of the address it was given when not. */
  datatype ReceiveOutcome = Extracted | InvalidPassword | FetchFailed(url: string)

  function Outcome(url: string, requiresPassword: bool, status: int): (o: ReceiveOutcome)
    ensures o == Extracted <==> status == 200
    ensures o == InvalidPassword <==> status != 200 && requiresPassword
    ensures o.FetchFailed? ==> o.url == url && !requiresPassword
  {
    if status == 200 then Extracted
    else if requiresPassword then InvalidPassword
    else FetchFailed(url)
  }

  /** One whole exchange between a host holding `password` and a receiver
      whose user types `entered` when asked: probe, credential, the `/get`
      reply, and the receiver's verdict. The credential reaches the host
      unchanged. */
  function Exchange(password: string, file: string, url: string, entered: string): ReceiveOutcome
  {
    var probe := Index(password);
    var credential := Credential(probe.requiresPassword, entered);
    var reply := Get(password, Some(credential), file);
    Outcome(url, probe.requiresPassword, StatusOf(reply))
  }

  /** The receiver extracts the pack exactly when the host has no password or
      the typed one matches; a refusal is always reported as a wrong
      password, never as a failed fetch. */
  lemma ExchangeSucceedsIffPasswordMatches(password: string, file: string, url: string, entered: string)
    ensures Exchange(password, file, url, entered) == Extracted <==> password == "" || entered == password
    ensures Exchange(password, file, url, entered) != Extracted ==> Exchange(password, file, url, entered) == InvalidPassword
  {
    var probe := Index(password);
    var credential := Credential(probe.requiresPassword, entered);
    var reply := Get(password, Some(credential), file);
    if password == "" {
      assert reply.ServeFile?;
    } else {
      assert credential == entered;
      assert reply.ServeFile? <==> entered == password;
    }
  }

  /** Without a password, whatever is typed (nothing is asked) the receiver
      gets the file, and the host ignores the header altogether. */
  lemma NoPasswordServesEveryRequest(file: string, authorization: Option<string>)
    ensures Get("", authorization, file) == ServeFile(file, "packnow.zip")
    ensures !Index("").requiresPassword
  {
  }

  /** With a password, a request without the header is refused like one with
      a wrong header. */
  lemma MissingHeaderIsRefused(password: string, file: string)
    requires password != ""
    ensures Get(password, None, file) == Unauthorized("password")
  {
  }
}
