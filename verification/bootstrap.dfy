/** The start-up decisions of main.go: loading or obtaining the OAuth token
    (`getClient`, `tokenFromFile`, `saveToken`, `tokenFromWeb` and its local callback),
    and the handler `main` actually installs (`mailHandler`). */
module Bootstrap {
  import opened Wrappers
  import opened Seqs
  import opened Handler
  import opened Bytes
  import Base64
  import Regex
  import Patterns
  import Text

  // ---------------------------------------------------------------------------
  // Tokens and their file

  /** An OAuth token record. */
  datatype Token = Token(accessToken: string, tokenType: string, refreshToken: string, expiry: int)

  /** The JSON encoding and decoding of token records, left uninterpreted. */
  datatype Codec = Codec(encode: Token -> seq<byte>, decode: seq<byte> -> Option<Token>)

  /** The files that can be opened for reading, with their contents. */
  type Files = map<string, seq<byte>>

  datatype FileError = CannotOpen(path: string) | CannotDecode(path: string)

  /** `tokenFromFile(path)`: the token stored at `path`, or the error of opening or decoding it. */
  function TokenFromFile(files: Files, codec: Codec, path: string): (r: Result<Token, FileError>)
    ensures path !in files ==> r == Failure(CannotOpen(path))
    ensures path in files ==> (r.Success? <==> codec.decode(files[path]).Some?)
    ensures r.Success? ==> path in files && codec.decode(files[path]) == Some(r.value)
    ensures r.Failure? && path in files ==> r.error == CannotDecode(path)
  {
    if path !in files then Failure(CannotOpen(path))
    else match codec.decode(files[path])
      case None => Failure(CannotDecode(path))
      case Some(tok) => Success(tok)
  }

  /** How far the encoder's write into the freshly truncated file got: all of the
      encoding, or only its first `n` bytes before a write error. */
  datatype Write = Complete | Cut(n: nat)

  /** The file contents a write leaves behind. */
  function Written(bytes: seq<byte>, w: Write): (r: seq<byte>)
    ensures |r| <= |bytes| && r == bytes[..|r|]
    ensures w.Complete? ==> r == bytes
    ensures w.Cut? ==> |r| == if w.n < |bytes| then w.n else |bytes|
  {
    match w
    case Complete => bytes
    case Cut(n) => if n < |bytes| then bytes[..n] else bytes
  }

  /** `saveToken(path, token)`: the files afterwards, or the fatal message when the
      file cannot be created. The file is truncated on opening and the encoder's
      error is ignored, so a failed write still succeeds, leaving a prefix of the
      encoding behind. */
  function SaveToken(files: Files, codec: Codec, path: string, token: Token, canCreate: bool, write: Write): (r: Result<Files, string>)
    ensures r.Success? <==> canCreate
    ensures r.Success? ==> path in r.value && r.value[path] == Written(codec.encode(token), write)
    ensures r.Success? ==> r.value[path] <= codec.encode(token)
    ensures r.Success? && write.Complete? ==> r.value[path] == codec.encode(token)
    ensures r.Success? ==> forall p :: p in files && p != path ==> p in r.value && r.value[p] == files[p]
    ensures r.Success? ==> r.value.Keys == files.Keys + {path}
  {
    if canCreate then Success(files[path := Written(codec.encode(token), write)])
    else Failure("Unable to cache oauth token")
  }

  // ---------------------------------------------------------------------------
  // The local authorization callback

  /** An HTTP request reaching the callback server: its URL path and its form
      values (query and body), each key with its values in order. */
  datatype Request = Request(path: string, form: map<string, seq<string>>)

  /** `req.FormValue(key)`: the first value of the key, or "" when there is none. */
  function FormValue(req: Request, key: string): (v: string)
    ensures key in req.form && |req.form[key]| > 0 ==> v == req.form[key][0]
    ensures !(key in req.form && |req.form[key]| > 0) ==> v == ""
  {
    if key in req.form && |req.form[key]| > 0 then req.form[key][0] else ""
  }

  datatype Response = Response(status: int, body: string)

  /** What the callback answers and, if anything, the code it hands to the waiting flow. */
  datatype Reply = Reply(response: Response, handoff: Option<string>)

  const FaviconPath: string := "/favicon.ico"
  const SuccessPage: string := "<h1>Success</h1><p>Authorized.  You can close this window.</p>"

  /** `http.Error(rw, "", status)`: the status, and the empty message followed by a line break. */
  function ErrorResponse(status: int): Response {
    Response(status, "\n")
  }

  /** The handler of the local callback server, for the generated `state` nonce. */
  function Callback(state: string, req: Request): (r: Reply)
    ensures req.path == FaviconPath ==> r == Reply(ErrorResponse(404), None)
    ensures req.path != FaviconPath && FormValue(req, "state") != state ==> r == Reply(ErrorResponse(500), None)
    ensures r.handoff.Some? <==>
              req.path != FaviconPath && FormValue(req, "state") == state && FormValue(req, "code") != ""
    ensures r.handoff.Some? ==> r.handoff.value == FormValue(req, "code") && r.response == Response(200, SuccessPage)
    ensures req.path != FaviconPath && FormValue(req, "state") == state && FormValue(req, "code") == "" ==>
              r == Reply(ErrorResponse(500), None)
    ensures r.handoff.None? ==> r.response.status in {404, 500}
  {
    if req.path == FaviconPath then Reply(ErrorResponse(404), None)
    else if FormValue(req, "state") != state then Reply(ErrorResponse(500), None)
    else
      var code := FormValue(req, "code");
      if code != "" then Reply(Response(200, SuccessPage), Some(code))
      else Reply(ErrorResponse(500), None)
  }

  predicate HandsOff(state: string, req: Request) {
    Callback(state, req).handoff.Some?
  }

  /** How the interactive flow ends: a token, a failed exchange (`log.Fatalf`), or
      still waiting because no request has handed over a code. */
  datatype WebResult = Obtained(token: Token) | ExchangeFailed(code: string) | Waiting

  /** `tokenFromWeb`: the callback server sees `requests` in order; the flow takes the
      code of the first one that hands one over and exchanges it with `exchange`. */
  function TokenFromWeb(state: string, requests: seq<Request>, exchange: string -> Option<Token>): (w: WebResult)
    ensures w.Waiting? <==> forall i :: 0 <= i < |requests| ==> !HandsOff(state, requests[i])
    ensures !w.Waiting? ==>
              exists k :: 0 <= k < |requests| && HandsOff(state, requests[k]) &&
                          (forall i :: 0 <= i < k ==> !HandsOff(state, requests[i])) &&
                          var code := FormValue(requests[k], "code");
                          code != "" && FormValue(requests[k], "state") == state &&
                          (w.Obtained? ==> exchange(code) == Some(w.token)) &&
                          (w.ExchangeFailed? ==> w.code == code && exchange(code).None?)
  {
    match FirstWhere(requests, (req: Request) => HandsOff(state, req))
    case None => Waiting
    case Some(k) =>
      var code := Callback(state, requests[k]).handoff.value;
      match exchange(code)
      case None => ExchangeFailed(code)
      case Some(tok) => Obtained(tok)
  }

  // ---------------------------------------------------------------------------
  // getClient

  /** The HTTP client `config.Client(ctx, tok)`, which carries the token. */
  datatype Client = Client(token: Token)

  /** How `getClient` ends: a client, with the files as they are afterwards and
      whether the interactive consent flow ran; blocked waiting for consent; or a
      fatal error. */
  datatype Startup = Ready(client: Client, files: Files, consented: bool) | Blocked | Fatal(message: string)

  /** `getClient(ctx, config, tokFile)`. */
  function GetClient(files: Files, codec: Codec, tokFile: string, state: string, requests: seq<Request>,
                     exchange: string -> Option<Token>, canCreate: bool, write: Write): (s: Startup)
    // a readable cache is used as is: no consent flow, nothing written
    ensures TokenFromFile(files, codec, tokFile).Success? ==>
              s == Ready(Client(TokenFromFile(files, codec, tokFile).value), files, false)
    // otherwise the token comes from the consent flow and exactly that token is saved,
    // as far as the write got
    ensures s.Ready? && s.consented ==> TokenFromFile(files, codec, tokFile).Failure?
    ensures TokenFromFile(files, codec, tokFile).Failure? && s.Ready? ==>
              && s.consented
              && TokenFromWeb(state, requests, exchange) == Obtained(s.client.token)
              && s.files == files[tokFile := Written(codec.encode(s.client.token), write)]
    ensures TokenFromFile(files, codec, tokFile).Failure? ==>
              (s.Ready? <==> TokenFromWeb(state, requests, exchange).Obtained? && canCreate)
    ensures s.Ready? ==> s.consented || s.files == files
    ensures s.Blocked? <==> TokenFromFile(files, codec, tokFile).Failure? && TokenFromWeb(state, requests, exchange).Waiting?
  {
    match TokenFromFile(files, codec, tokFile)
    case Success(tok) => Ready(Client(tok), files, false)
    case Failure(_) =>
      match TokenFromWeb(state, requests, exchange)
      case Waiting => Blocked
      case ExchangeFailed(code) => Fatal("Token exchange error")
      case Obtained(tok) =>
        match SaveToken(files, codec, tokFile, tok, canCreate, write)
        case Failure(msg) => Fatal(msg)
        case Success(files') => Ready(Client(tok), files', true)
  }

  /** A token saved by the consent flow is what the next start-up loads, provided the
      token codec reads back what it writes and the write was complete: the second
      start needs no consent. */
  lemma RestartUsesSavedToken(files: Files, codec: Codec, tokFile: string, state: string, requests: seq<Request>,
                              exchange: string -> Option<Token>, canCreate: bool,
                              state': string, requests': seq<Request>, exchange': string -> Option<Token>,
                              canCreate': bool, write': Write)
    requires forall t :: codec.decode(codec.encode(t)) == Some(t)
    requires GetClient(files, codec, tokFile, state, requests, exchange, canCreate, Complete).Ready?
    ensures var first := GetClient(files, codec, tokFile, state, requests, exchange, canCreate, Complete);
            GetClient(first.files, codec, tokFile, state', requests', exchange', canCreate', write')
              == Ready(first.client, first.files, false)
  {
  }

  /** A write that fails before any byte reaches the file goes unnoticed: a start-up
      that succeeds through the consent flow leaves the file empty, and when the
      codec cannot decode empty contents the next start-up cannot use the cache and
      needs consent again. */
  lemma EmptyWriteForgetsToken(files: Files, codec: Codec, tokFile: string, state: string, requests: seq<Request>,
                               exchange: string -> Option<Token>,
                               state': string, requests': seq<Request>, exchange': string -> Option<Token>,
                               canCreate': bool, write': Write)
    requires codec.decode([]) == None
    requires TokenFromFile(files, codec, tokFile).Failure?
    ensures var first := GetClient(files, codec, tokFile, state, requests, exchange, true, Cut(0));
            first.Ready? ==>
              var second := GetClient(first.files, codec, tokFile, state', requests', exchange', canCreate', write');
              && first.consented && first.files[tokFile] == []
              && !(second.Ready? && !second.consented)
  {
    var first := GetClient(files, codec, tokFile, state, requests, exchange, true, Cut(0));
    if first.Ready? {
      assert first.files[tokFile] == [];
      assert TokenFromFile(first.files, codec, tokFile) == Failure(CannotDecode(tokFile));
    }
  }

  // ---------------------------------------------------------------------------
  // The handler main installs

  /** The closure of `mailHandler(srv)`, the handler `main` passes to the SMTP
      server: it parses the data, then sends it whatever the sender and recipients,
      and returns nil in every case, a failed send included. */
  function LegacyHandle(parses: seq<byte> -> bool, from: string, to: seq<string>,
                        data: seq<byte>, status: SendStatus): (o: Outcome)
    ensures o.Error() == None
    ensures o.Forwarded? <==> parses(data)
    ensures o.Dropped? ==> o.reason == Unparseable
    ensures o.Forwarded? ==> o.request.userId == Me && Base64.Decode(o.request.raw) == Some(data) && o.status == status
    ensures o.Forwarded? ==> o.request.raw == Base64.Encode(data)
  {
    if !parses(data) then Dropped(Unparseable)
    else Forwarded(ForwardRequest(data), status, None)
  }

  /** The installed handler sends exactly what the filtering handler sends with empty
      allow lists; the two differ only in that the filtering one reports a failed send. */
  lemma LegacyIsUnfiltered(engine: Regex.Engine, parses: seq<byte> -> bool, from: string, to: seq<string>,
                           data: seq<byte>, status: SendStatus)
    ensures var legacy := LegacyHandle(parses, from, to, data, status);
            var open := Handle(Filters(engine, [], []), parses, from, to, data, status);
            && legacy.Sends() == open.Sends()
            && legacy.Error() == None
            && (open.Error().Some? <==> parses(data) && status.SendFailed?)
  {
  }

  /** With allow-list configurations made only of commas and white space, the
      filtering handler sends exactly what the installed handler sends. */
  lemma BlankConfigurationsMatchLegacy(engine: Regex.Engine, senderConfig: string, recipientConfig: string,
                                       parses: seq<byte> -> bool, from: string, to: seq<string>,
                                       data: seq<byte>, status: SendStatus)
    requires forall k :: 0 <= k < |senderConfig| ==> senderConfig[k] == ',' || Text.IsSpace(senderConfig[k])
    requires forall k :: 0 <= k < |recipientConfig| ==> recipientConfig[k] == ',' || Text.IsSpace(recipientConfig[k])
    ensures Patterns.ConvertToRegexPatterns(engine, senderConfig) == Wrappers.Success([])
    ensures Patterns.ConvertToRegexPatterns(engine, recipientConfig) == Wrappers.Success([])
    ensures Handle(Filters(engine, [], []), parses, from, to, data, status).Sends()
              == LegacyHandle(parses, from, to, data, status).Sends()
  {
    Patterns.BlankInput(engine, senderConfig);
    Patterns.BlankInput(engine, recipientConfig);
    LegacyIsUnfiltered(engine, parses, from, to, data, status);
  }
}
