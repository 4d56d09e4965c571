/** The two request handlers of projects/basic-web-server/main.go, each a
    pure function from the request fields it looks at to the response it
    writes. */
module WebServer {
  import opened Results

  /** What a handler reads from the request: the URL path, the method, the
      error ParseForm reports (None when it succeeds) and the form values
      of "name" and "email". */
  datatype Request = Request(path: string, httpMethod: string, parseError: Option<string>, name: string, email: string)

  /** The status code and the text written to the body, fragment by
      fragment in the order written. */
  datatype Response = Response(status: int, body: seq<string>)

  const StatusOK := 200
  const StatusNotFound := 404
  const StatusMethodNotAllowed := 405

  /** http.Error: the status code, and the message followed by a newline. */
  function HttpError(msg: string, code: int): Response
  {
    Response(code, [msg + "\n"])
  }

  const NotFoundResponse := HttpError("404 not found", StatusNotFound)
  const MethodNotAllowedResponse := HttpError("Method not allowed", StatusMethodNotAllowed)

  /** helloHandler.  Writing the body without an explicit status sends 200. */
  function Hello(req: Request): (resp: Response)
    ensures req.path != "/hello" ==> resp == NotFoundResponse
    ensures req.path == "/hello" && req.httpMethod != "GET" ==> resp == MethodNotAllowedResponse
    ensures resp.status == StatusOK <==> req.path == "/hello" && req.httpMethod == "GET"
    ensures resp.status == StatusOK ==> resp.body == ["Hello!"]
  {
    if req.path != "/hello" then NotFoundResponse
    else if req.httpMethod != "GET" then MethodNotAllowedResponse
    else Response(StatusOK, ["Hello!"])
  }

  /** helloHandler never looks at the form. */
  lemma HelloIgnoresForm(req: Request, parseError: Option<string>, name: string, email: string)
    ensures Hello(req.(parseError := parseError, name := name, email := email)) == Hello(req)
  {
  }

  const PleaseEnter := "Please enter a name and email"
  const Submitted := "Form Submitted Successfully!"

  function ParseErrorText(err: string): string
  {
    "ParseForm() error: " + err
  }

  /** formHandler: route and method checks, then the ParseForm error (if
      any) is written without returning, then the field check.  The values
      it prints to standard output are not part of the response. */
  function Form(req: Request): (resp: Response)
    ensures req.path != "/form" ==> resp == NotFoundResponse
    ensures req.path == "/form" && req.httpMethod != "POST" ==> resp == MethodNotAllowedResponse
    ensures resp.status == StatusOK <==> req.path == "/form" && req.httpMethod == "POST"
  {
    if req.path != "/form" then NotFoundResponse
    else if req.httpMethod != "POST" then MethodNotAllowedResponse
    else
      var parsed := match req.parseError case Some(e) => [ParseErrorText(e)] case None => [];
      if req.name == "" || req.email == "" then Response(StatusOK, parsed + [PleaseEnter])
      else Response(StatusOK, parsed + [Submitted])
  }

  lemma ParseErrorTextDiffers(err: string)
    ensures ParseErrorText(err) != PleaseEnter && ParseErrorText(err) != Submitted
  {
    assert ParseErrorText(err)[0] == 'P' && ParseErrorText(err)[1] == 'a';
  }

  /** A ParseForm failure only prepends its message: the rest of the
      response is what the same request would get if parsing had worked. */
  lemma FormParseErrorContinues(req: Request, err: string)
    requires req.path == "/form" && req.httpMethod == "POST" && req.parseError == Some(err)
    ensures Form(req) == Response(StatusOK, [ParseErrorText(err)] + Form(req.(parseError := None)).body)
  {
  }

  /** A missing name or email gets the prompt and never the success
      message, whether or not ParseForm failed. */
  lemma FormMissingField(req: Request)
    requires req.path == "/form" && req.httpMethod == "POST"
    requires req.name == "" || req.email == ""
    ensures PleaseEnter in Form(req).body && Submitted !in Form(req).body
  {
    if req.parseError.Some? {
      ParseErrorTextDiffers(req.parseError.value);
      assert Form(req).body == [ParseErrorText(req.parseError.value), PleaseEnter];
    }
  }

  /** The success message is written exactly for a POST to /form with both
      fields filled in, and it is then the last fragment of the body. */
  lemma FormSubmittedIff(req: Request)
    ensures Submitted in Form(req).body <==>
              req.path == "/form" && req.httpMethod == "POST" && req.name != "" && req.email != ""
    ensures Submitted in Form(req).body ==>
              Form(req).body[|Form(req).body| - 1] == Submitted && PleaseEnter !in Form(req).body
  {
    var body := Form(req).body;
    assert ("404 not found" + "\n") != Submitted by {
      assert ("404 not found" + "\n")[0] == '4';
    }
    assert ("Method not allowed" + "\n") != Submitted by {
      assert ("Method not allowed" + "\n")[0] == 'M';
    }
    if req.path == "/form" && req.httpMethod == "POST" {
      if req.parseError.Some? {
        ParseErrorTextDiffers(req.parseError.value);
        if req.name == "" || req.email == "" {
          assert body == [ParseErrorText(req.parseError.value), PleaseEnter];
        } else {
          assert body == [ParseErrorText(req.parseError.value), Submitted];
        }
      }
    }
  }
}
