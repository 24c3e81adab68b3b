/**
 * Server.handleRequest: the chain of checks that decides how a request is
 * answered, the calls it makes on the response recorder, and the one log
 * entry written when it returns.
 *
 * os.Stat is a parameter mapping a path to what it finds; the wrapped
 * writer's byte counts are the parameter `sink`; http.ServeFile is the
 * sequence of calls `serve` it makes on the recorder.
 */
module Handler {
  import opened Strings
  import opened Paths
  import opened Extensions
  import opened Recorder
  import opened LogNames
  import opened LogWriter

  /**
   * What os.Stat reports for the resolved path: not there, another error, a
   * directory, or anything else (a regular file, a device, a FIFO, or what a
   * symbolic link points at), which the handler goes on to serve.
   */
  datatype StatResult = Missing | StatFailed | Directory | NotDirectory

  /** The ways a request can end. */
  datatype Outcome =
    | MethodNotAllowed
    | PathRefused(reason: SanitizeError)
    | NotFound
    | InternalError
    | DirectoryRefused
    | ExtensionRefused(decision: ExtDecision)
    | Serve(file: string)

  const StatusForbidden := 403
  const StatusNotFound := 404
  const StatusMethodNotAllowed := 405
  const StatusInternalServerError := 500

  /**
   * The status http.Error is given on each refusal: always an error status,
   * a server error only when os.Stat failed, and 403 for every refusal of
   * the path, a directory or an extension.
   */
  function ErrorStatus(o: Outcome): (s: int)
    requires !o.Serve?
    ensures 400 <= s < 600
    ensures s >= 500 <==> o == InternalError
    ensures s == StatusForbidden <==> o.PathRefused? || o.DirectoryRefused? || o.ExtensionRefused?
  {
    match o
    case MethodNotAllowed => StatusMethodNotAllowed
    case NotFound => StatusNotFound
    case InternalError => StatusInternalServerError
    case _ => StatusForbidden
  }

  /** http.StatusText for the four statuses the handler sends, as net/http spells them. */
  function StatusText(code: int): string
  {
    if code == StatusForbidden then "Forbidden"
    else if code == StatusNotFound then "Not Found"
    else if code == StatusMethodNotAllowed then "Method Not Allowed"
    else if code == StatusInternalServerError then "Internal Server Error"
    else ""
  }

  /** The message http.Error is given on each refusal: the standard text of its status. */
  function ErrorText(o: Outcome): (t: string)
    requires !o.Serve?
    ensures t == StatusText(ErrorStatus(o)) && t != ""
  {
    match o
    case MethodNotAllowed => "Method Not Allowed"
    case NotFound => "Not Found"
    case InternalError => "Internal Server Error"
    case _ => "Forbidden"
  }

  /**
   * The decision chain of the handler, in the order of its checks. A file is
   * served only for GET or HEAD, when the sanitiser accepts the path, and
   * when os.Stat finds no directory there and the extension check passes.
   */
  function Decide(verb: string, path: string, root: string, stat: string -> StatResult): (o: Outcome)
    requires IsCleanAbs(root)
    ensures o.Serve? ==> (verb == "GET" || verb == "HEAD") && Sanitize(path, root) == Safe(o.file)
    ensures o.Serve? ==> stat(o.file) == NotDirectory && CheckExtension(o.file) == Servable
  {
    if verb != "GET" && verb != "HEAD" then MethodNotAllowed
    else match Sanitize(path, root)
      case Rejected(reason) => PathRefused(reason)
      case Safe(clean) => DecideFile(clean, stat(clean))
  }

  /**
   * The checks on a sanitised path, given what os.Stat found there: the
   * path itself is served exactly when it is no directory and its extension
   * passes; an extension refusal carries the check's decision.
   */
  function DecideFile(clean: string, info: StatResult): (o: Outcome)
    ensures o.Serve? <==> info == NotDirectory && CheckExtension(clean) == Servable
    ensures o.Serve? ==> o.file == clean
    ensures o.ExtensionRefused? <==> info == NotDirectory && CheckExtension(clean) != Servable
    ensures o.ExtensionRefused? ==> o.decision == CheckExtension(clean)
  {
    match info
    case Missing => NotFound
    case StatFailed => InternalError
    case Directory => DirectoryRefused
    case NotDirectory =>
      if CheckExtension(clean) == Servable then Serve(clean) else ExtensionRefused(CheckExtension(clean))
  }

  /**
   * A served file passed every check: the method is GET or HEAD, the path
   * is the root, a separator and the request's name, it is no directory
   * and its extension is allowlisted.
   */
  lemma ServedFilesAreSafe(verb: string, path: string, root: string, stat: string -> StatResult)
    requires IsCleanAbs(root)
    requires Decide(verb, path, root, stat).Serve?
    ensures var f := Decide(verb, path, root, stat).file;
      && (verb == "GET" || verb == "HEAD")
      && f == root + "/" + TrimPrefix(path, "/")
      && HasPrefix(f, root + "/")
      && stat(f) == NotDirectory
      && ToLower(Ext(f)) in AllowedExts && ToLower(Ext(f)) !in BlockedExts
  {
    SanitizeContained(path, root);
  }

  /** Exactly the requests that pass every check are served, stated on the request name alone. */
  lemma ServedIff(verb: string, path: string, root: string, stat: string -> StatResult)
    requires IsCleanAbs(root)
    ensures var rem := TrimPrefix(path, "/");
      Decide(verb, path, root, stat).Serve? <==>
        && (verb == "GET" || verb == "HEAD")
        && root != "/" && AcceptableName(rem)
        && stat(root + "/" + rem) == NotDirectory
        && ToLower(Ext(rem)) in AllowedExts
  {
    var rem := TrimPrefix(path, "/");
    SanitizeAccepts(path, root);
    if Sanitize(path, root).Safe? {
      SanitizeContained(path, root);
      ExtOfChild(root, rem);
    }
  }

  /** The status of every refusal, each in both directions. */
  lemma StatusTable(verb: string, path: string, root: string, stat: string -> StatResult)
    requires IsCleanAbs(root)
    ensures var o := Decide(verb, path, root, stat);
      var allowed := verb == "GET" || verb == "HEAD";
      var s := Sanitize(path, root);
      && (!o.Serve? && ErrorStatus(o) == 405 <==> !allowed)
      && (!o.Serve? && ErrorStatus(o) == 404 <==> allowed && s.Safe? && stat(s.path) == Missing)
      && (!o.Serve? && ErrorStatus(o) == 500 <==> allowed && s.Safe? && stat(s.path) == StatFailed)
      && (!o.Serve? && ErrorStatus(o) == 403 <==>
            allowed &&
            (|| s.Rejected?
             || stat(s.path) == Directory
             || (stat(s.path) == NotDirectory && CheckExtension(s.path) != Servable)))
  {
  }

  /** Stat comes before the extension check: a missing file is 404 whatever its name ends in. */
  lemma MissingIsNotFound(verb: string, path: string, root: string, stat: string -> StatResult)
    requires IsCleanAbs(root)
    requires verb == "GET" || verb == "HEAD"
    requires Sanitize(path, root).Safe? && stat(Sanitize(path, root).path) == Missing
    ensures Decide(verb, path, root, stat) == NotFound
    ensures ErrorStatus(NotFound) == 404
  {
  }

  /** Every policy refusal looks the same to the client: 403 "Forbidden". */
  lemma RefusalsLookAlike(verb: string, path: string, root: string, stat: string -> StatResult)
    requires IsCleanAbs(root)
    requires var o := Decide(verb, path, root, stat);
      o.PathRefused? || o.DirectoryRefused? || o.ExtensionRefused?
    ensures ErrorStatus(Decide(verb, path, root, stat)) == 403
    ensures ErrorText(Decide(verb, path, root, stat)) == "Forbidden"
  {
  }

  /** The sanitised path has the extension of the request path: the root plays no part in it. */
  lemma SanitizedExt(path: string, root: string)
    requires IsCleanAbs(root) && Sanitize(path, root).Safe?
    ensures Ext(Sanitize(path, root).path) == Ext(path)
  {
    var rem := TrimPrefix(path, "/");
    assert Sanitize(path, root).path == root + "/" + rem;
    SanitizeAccepts(path, root);
    ExtOfChild(root, rem);
    if HasPrefix(path, "/") {
      assert path == "" + "/" + rem;
      ExtOfChild("", rem);
    }
  }

  /** A sanitised path whose extension the policy refuses is never served, and anything but a directory there is refused for it. */
  lemma RefusedExtensionNotServed(verb: string, path: string, root: string, stat: string -> StatResult)
    requires IsCleanAbs(root) && Sanitize(path, root).Safe?
    requires CheckExtension(Sanitize(path, root).path) != Servable
    ensures !Decide(verb, path, root, stat).Serve?
    ensures (verb == "GET" || verb == "HEAD") && stat(Sanitize(path, root).path) == NotDirectory ==>
      Decide(verb, path, root, stat) == ExtensionRefused(CheckExtension(Sanitize(path, root).path))
  {
  }

  /**
   * A request for a name ending in ".log", in this case, is never served,
   * even when the log directory is the served root.
   */
  lemma LogFilesNeverServed(verb: string, path: string, root: string, stat: string -> StatResult)
    requires IsCleanAbs(root)
    requires HasSuffix(path, ".log")
    ensures !Decide(verb, path, root, stat).Serve?
  {
    if Sanitize(path, root).Safe? {
      assert CheckExtension(Sanitize(path, root).path) == Blocked by {
        LogExtension();
        ExtOfSuffix(path, ".log");
        SanitizedExt(path, root);
        LogAlwaysBlocked(Sanitize(path, root).path, AllowedExts);
      }
      RefusedExtensionNotServed(verb, path, root, stat);
    }
  }

  /** The files the writer creates are never served. */
  lemma HourFilesNeverServed(verb: string, b: Bucket, root: string, stat: string -> StatResult)
    requires IsCleanAbs(root) && ValidBucket(b)
    ensures !Decide(verb, "/" + BucketName(b), root, stat).Serve?
  {
    var path := "/" + BucketName(b);
    assert path[|path| - 4..] == ".log";
    LogFilesNeverServed(verb, path, root, stat);
  }

  /** The default root "/var/www" is clean and absolute. */
  lemma DefaultRootIsClean()
    ensures IsCleanAbs("/var/www")
  {
    JoinClean("/", "var");
    assert Join("/", "var") == "/var";
    JoinClean("/var", "www");
    assert Join("/var", "www") == "/var/www";
  }

  /** A request "/" + name for an acceptable name resolves to the root, a separator and the name. */
  lemma NameAccepted(root: string, name: string)
    requires IsCleanAbs(root) && root != "/" && AcceptableName(name)
    ensures Sanitize("/" + name, root) == Safe(root + "/" + name)
    ensures Ext(root + "/" + name) == Ext(name)
  {
    var p := "/" + name;
    assert HasPrefix(p, "/");
    assert TrimPrefix(p, "/") == name;
    SanitizeAccepts(p, root);
    SanitizeContained(p, root);
    ExtOfChild(root, name);
  }

  /** For such a request only the file checks remain. */
  lemma NameDecided(verb: string, root: string, name: string, stat: string -> StatResult)
    requires IsCleanAbs(root) && root != "/" && AcceptableName(name)
    requires verb == "GET" || verb == "HEAD"
    ensures Decide(verb, "/" + name, root, stat) == DecideFile(root + "/" + name, stat(root + "/" + name))
    ensures stat(root + "/" + name) == NotDirectory ==>
      Decide(verb, "/" + name, root, stat) ==
        (var d := CheckExtension(root + "/" + name); if d == Servable then Serve(root + "/" + name) else ExtensionRefused(d))
  {
    NameAccepted(root, name);
  }

  /**
   * Under any root but "/" (the default "/var/www" among them): GET of an
   * existing file whose name ends in ".html", "/about.html" for one, is
   * handed to http.ServeFile.
   */
  lemma HtmlServed(root: string, name: string, stat: string -> StatResult)
    requires IsCleanAbs(root) && root != "/" && AcceptableName(name) && HasSuffix(name, ".html")
    requires stat(root + "/" + name) == NotDirectory
    ensures Decide("GET", "/" + name, root, stat) == Serve(root + "/" + name)
  {
    NameAccepted(root, name);
    HtmlExtension();
    ExtOfSuffix(name, ".html");
    NameDecided("GET", root, name, stat);
  }

  /** Any method but GET and HEAD is 405, before the path is looked at. */
  lemma PostExample(path: string, root: string, stat: string -> StatResult)
    requires IsCleanAbs(root)
    ensures Decide("POST", path, root, stat) == MethodNotAllowed
    ensures Decide("DELETE", path, root, stat) == MethodNotAllowed
  {
  }

  /** "/../etc/passwd" is refused for its separator before anything is looked up. */
  lemma TraversalExample(root: string, stat: string -> StatResult)
    requires IsCleanAbs(root)
    ensures Decide("GET", "/../etc/passwd", root, stat) == PathRefused(Subdirectory)
  {
    var rem := TrimPrefix("/../etc/passwd", "/");
    assert rem == "../etc/passwd";
    assert rem[2] == '/';
    SeparatorRejected("/../etc/passwd", root);
  }

  /**
   * GET of an existing file whose extension is ".\U{0130}co" (capital I with
   * a dot above) is handed to http.ServeFile: the lowercased extension is ".ico".
   */
  lemma CapitalDottedIServed(root: string, name: string, stat: string -> StatResult)
    requires IsCleanAbs(root) && root != "/" && AcceptableName(name) && HasSuffix(name, ".\U{0130}co")
    requires stat(root + "/" + name) == NotDirectory
    ensures Decide("GET", "/" + name, root, stat) == Serve(root + "/" + name)
  {
    NameAccepted(root, name);
    CapitalDottedIExtension();
    ExtOfSuffix(name, ".\U{0130}co");
    NameDecided("GET", root, name, stat);
  }

  /** An existing file whose name ends in ".LOG", "/App.LOG" for one, is refused by the blocklist: case does not matter. */
  lemma UpperLogRefused(root: string, name: string, stat: string -> StatResult)
    requires IsCleanAbs(root) && root != "/" && AcceptableName(name) && HasSuffix(name, ".LOG")
    requires stat(root + "/" + name) == NotDirectory
    ensures Decide("GET", "/" + name, root, stat) == ExtensionRefused(Blocked)
  {
    NameAccepted(root, name);
    UpperLogExtension();
    ExtOfSuffix(name, ".LOG");
    NameDecided("GET", root, name, stat);
  }

  /** A missing file whose name ends in ".exe", "/gone.exe" for one, is 404 for HEAD too, although ".exe" is not allowlisted. */
  lemma MissingExeNotFound(root: string, name: string, stat: string -> StatResult)
    requires IsCleanAbs(root) && root != "/" && AcceptableName(name) && HasSuffix(name, ".exe")
    requires stat(root + "/" + name) == Missing
    ensures Decide("HEAD", "/" + name, root, stat) == NotFound
    ensures CheckExtension(root + "/" + name) == NotAllowed
  {
    NameAccepted(root, name);
    ExeExtension();
    ExtOfSuffix(name, ".exe");
    NameDecided("HEAD", root, name, stat);
  }

  /** `fmt.Fprintln(w, error)`: the message and a newline, one byte per character. */
  function ErrorBody(text: string): (body: seq<byte>)
    ensures |body| == |text| + 1 && body[|text|] == 10
    ensures forall i :: 0 <= i < |text| ==> body[i] as int == text[i] as int % 256
  {
    seq(|text|, i requires 0 <= i < |text| => (text[i] as int % 256) as byte) + [10]
  }

  /**
   * The calls the handler makes on the recorder for an outcome: those of
   * http.ServeFile for a served file; for a refusal, the error's status and
   * then one write of its message.
   */
  function ResponseCalls(o: Outcome, sink: seq<byte> -> int, serve: seq<Call>): (r: seq<Call>)
    ensures o.Serve? ==> r == serve
    ensures !o.Serve? ==> |r| == 2 && r[0] == Call.WriteHeader(ErrorStatus(o))
    ensures !o.Serve? ==> r[1].WriteBody? && r[1].data == ErrorBody(ErrorText(o))
  {
    if o.Serve? then serve
    else [Call.WriteHeader(ErrorStatus(o)), WriteBody(ErrorBody(ErrorText(o)), sink(ErrorBody(ErrorText(o))))]
  }

  /** After an error response the recorder holds the error's status and the count the writer took for its message. */
  lemma ErrorRecorded(o: Outcome, sink: seq<byte> -> int, serve: seq<Call>)
    ensures !o.Serve? ==> RecordedStatus(ResponseCalls(o, sink, serve)) == ErrorStatus(o)
    ensures !o.Serve? ==> RecordedBytes(ResponseCalls(o, sink, serve)) == sink(ErrorBody(ErrorText(o)))
  {
    if !o.Serve? {
      var header := Call.WriteHeader(ErrorStatus(o));
      var body := WriteBody(ErrorBody(ErrorText(o)), sink(ErrorBody(ErrorText(o))));
      assert ResponseCalls(o, sink, serve) == [header, body];
      assert [header, body][..1] == [header];
      assert [header][..0] == [];
      assert RecordedBytes([header]) == 0;
    }
  }

  /** http.Error on the recorder: the status, then the message. */
  method Error(rec: ResponseRecorder, text: string, code: int, sink: seq<byte> -> int)
    requires rec.Valid() && forall p :: 0 <= sink(p) <= |p|
    modifies rec
    ensures rec.Valid()
    ensures rec.history == old(rec.history) + [Call.WriteHeader(code), WriteBody(ErrorBody(text), sink(ErrorBody(text)))]
  {
    rec.WriteHeader(code);
    var body := ErrorBody(text);
    var _ := rec.Write(body, sink(body));
  }

  /** A refusal: http.Error with the status and the message of its outcome. */
  method Refuse(rec: ResponseRecorder, o: Outcome, sink: seq<byte> -> int)
    requires rec.Valid() && rec.history == [] && !o.Serve?
    requires forall p :: 0 <= sink(p) <= |p|
    modifies rec
    ensures rec.Valid() && rec.history == ResponseCalls(o, sink, [])
  {
    Error(rec, ErrorText(o), ErrorStatus(o), sink);
  }

  /** http.ServeFile, as the calls it makes on the recorder, made one after another. */
  method Replay(rec: ResponseRecorder, calls: seq<Call>)
    requires rec.Valid() && WellFormed(calls)
    modifies rec
    ensures rec.Valid() && rec.history == old(rec.history) + calls
  {
    for i := 0 to |calls|
      invariant rec.Valid() && rec.history == old(rec.history) + calls[..i]
    {
      assert calls[..i + 1] == calls[..i] + [calls[i]];
      match calls[i]
      case WriteHeader(code) =>
        rec.WriteHeader(code);
      case WriteBody(data, n) =>
        var _ := rec.Write(data, n);
    }
    assert calls[..|calls|] == calls;
  }

  /** The body of the handler up to the deferred log: each check and its refusal, in order. */
  method Respond(rec: ResponseRecorder, verb: string, path: string, root: string,
                 stat: string -> StatResult, sink: seq<byte> -> int, serve: seq<Call>)
    returns (outcome: Outcome)
    requires rec.Valid() && rec.history == []
    requires IsCleanAbs(root) && WellFormed(serve)
    requires forall p :: 0 <= sink(p) <= |p|
    modifies rec
    ensures outcome == Decide(verb, path, root, stat)
    ensures rec.Valid() && rec.history == ResponseCalls(outcome, sink, serve)
  {
    if verb != "GET" && verb != "HEAD" {
      outcome := MethodNotAllowed;
      Refuse(rec, outcome, sink);
      return;
    }
    var sanitized := Sanitize(path, root);
    if sanitized.Rejected? {
      outcome := PathRefused(sanitized.reason);
      Refuse(rec, outcome, sink);
      return;
    }
    var cleanPath := sanitized.path;
    outcome := RespondFile(rec, cleanPath, stat(cleanPath), sink, serve);
  }

  /** The rest of the handler once the path is sanitised: stat, directory and extension checks, then the file. */
  method RespondFile(rec: ResponseRecorder, cleanPath: string, info: StatResult,
                     sink: seq<byte> -> int, serve: seq<Call>)
    returns (outcome: Outcome)
    requires rec.Valid() && rec.history == []
    requires WellFormed(serve)
    requires forall p :: 0 <= sink(p) <= |p|
    modifies rec
    ensures outcome == DecideFile(cleanPath, info)
    ensures rec.Valid() && rec.history == ResponseCalls(outcome, sink, serve)
  {
    if info == Missing {
      outcome := NotFound;
      Refuse(rec, outcome, sink);
      return;
    } else if info == StatFailed {
      outcome := InternalError;
      Refuse(rec, outcome, sink);
      return;
    }
    if info == Directory {
      outcome := DirectoryRefused;
      Refuse(rec, outcome, sink);
      return;
    }
    // the lowercased extension, looked up in the blocklist and then the allowlist
    var decision := CheckExtension(cleanPath);
    if decision != Servable {
      outcome := ExtensionRefused(decision);
      Refuse(rec, outcome, sink);
      return;
    }
    outcome := Serve(cleanPath);
    Replay(rec, serve);
  }

  /**
   * Server.handleRequest: a fresh recorder around the writer, the response,
   * and then, on every path out, one entry with the recorded status and
   * byte count handed to the log writer at `now`.
   */
  method HandleRequest(verb: string, path: string, root: string, stat: string -> StatResult,
                       sink: seq<byte> -> int, serve: seq<Call>,
                       logs: LogDirectory, now: Moment, logWrite: LogWrite)
    returns (outcome: Outcome, entry: LogEntry)
    requires IsCleanAbs(root) && WellFormed(serve)
    requires forall p :: 0 <= sink(p) <= |p|
    requires IsCleanAbs(logs.logDir) && ValidMoment(now)
    modifies logs
    ensures outcome == Decide(verb, path, root, stat)
    ensures entry.verb == verb && entry.path == path
    ensures !outcome.Serve? ==> entry.status == ErrorStatus(outcome)
    ensures !outcome.Serve? ==> entry.bytes == sink(ErrorBody(ErrorText(outcome)))
    ensures outcome.Serve? ==> entry.status == RecordedStatus(serve) && entry.bytes == RecordedBytes(serve)
    ensures logWrite == OpenFailed ==> logs.files == old(logs.files)
    ensures logWrite == EncodeFailed ==> logs.files == CreateIfMissing(old(logs.files), CurrentLogFile(logs.logDir, now))
    ensures logWrite == Written ==> logs.files == AppendEntry(old(logs.files), CurrentLogFile(logs.logDir, now), entry)
  {
    var wrapped := new ResponseRecorder();
    outcome := Respond(wrapped, verb, path, root, stat, sink, serve);
    entry := LogEntry(verb, path, wrapped.statusCode, wrapped.bytesWritten);
    ErrorRecorded(outcome, sink, serve);
    logs.LogRequest(entry, now, logWrite);
  }
}
