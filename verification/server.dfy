/** The two GET handlers of server.js: the ping responder and the download
    route. The download directory is an abstract set of the file names that
    exist in it. */
module Server {
  import opened Text

  /** What a response carries: a short text, or the bytes of a named asset. */
  datatype Payload = Message(text: string) | AssetFile(name: string)

  /** A response: its status, whether `Cache-Control: no-store` was set, and
      its payload. */
  datatype Response = Response(status: nat, noStore: bool, payload: Payload)

  /** The requests these handlers answer; `token` is the client's
      cache-defeating query parameter `t`. */
  datatype Request =
    | PingRequest(token: string)
    | DownloadRequest(filename: string, token: string)

  /** `res.sendStatus(200)`: status 200 with its reason phrase as the body. */
  function SendOk(noStore: bool): Response {
    Response(200, noStore, Message("OK"))
  }

  /** The `/api/ping` handler. */
  function HandlePing(): (r: Response)
    ensures r.status == 200 && r.noStore
  {
    SendOk(true)
  }

  /** The `/api/download/:filename` handler: a name containing ".." is
      refused before the directory is looked at; an existing asset is sent
      uncached; anything else is not found. */
  function HandleDownload(filename: string, existing: set<string>): (r: Response)
    ensures r.status == 400 <==> exists i: nat :: OccursAt(filename, "..", i)
    ensures r.status == 200 <==> r.payload.AssetFile?
    ensures r.payload.AssetFile? ==>
              && r.payload.name == filename
              && r.payload.name in existing
              && !Includes(r.payload.name, "..")
              && r.noStore
    ensures r.status == 404 <==> !Includes(filename, "..") && filename !in existing
    ensures r.status == 400 ==> r == Response(400, false, Message("Invalid filename."))
    ensures r.status == 404 ==> r == Response(404, false, Message("File not found."))
    ensures r.status in {200, 400, 404}
  {
    IncludesIff(filename, "..");
    if Includes(filename, "..") then Response(400, false, Message("Invalid filename."))
    else if filename in existing then Response(200, true, AssetFile(filename))
    else Response(404, false, Message("File not found."))
  }

  /** The GET routes of the API. */
  function Handle(req: Request, existing: set<string>): Response {
    match req
    case PingRequest(_) => HandlePing()
    case DownloadRequest(filename, _) => HandleDownload(filename, existing)
  }

  /** The token only defeats caches: it never changes an answer, and a ping
      is always 200 with `no-store`. */
  lemma TokenIsIgnored(req: Request, token: string, existing: set<string>)
    ensures Handle(req.(token := token), existing) == Handle(req, existing)
    ensures req.PingRequest? ==> Handle(req, existing) == Response(200, true, Message("OK"))
  {
  }

  /** The traversal check comes before any lookup: for a name containing
      "..", what exists in the directory makes no difference. */
  lemma TraversalCheckedFirst(filename: string, existing1: set<string>, existing2: set<string>)
    requires Includes(filename, "..")
    ensures HandleDownload(filename, existing1) == HandleDownload(filename, existing2)
    ensures HandleDownload(filename, existing1) == Response(400, false, Message("Invalid filename."))
  {
  }

  /** "../secret" is refused whatever the directory holds, and so is a name
      that hides ".." in its middle. */
  lemma TraversalExamples(existing: set<string>)
    ensures HandleDownload("../secret", existing).status == 400
    ensures HandleDownload("a/../../b", existing).status == 400
  {
    IncludesInfix("", "..", "/secret");
    assert "../secret" == "" + ".." + "/secret";
    IncludesInfix("a/", "..", "/../b");
    assert "a/../../b" == "a/" + ".." + "/../b";
  }
}
