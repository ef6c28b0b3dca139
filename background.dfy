/**
 * The service worker (background.js): the credentials sent with each request,
 * the request for the latest commit of one project, how the answer is turned
 * into a commit or an error message, and the batch over all projects.
 * The cookie store, the message channel to the page, `fetch` and
 * `encodeURIComponent` are outside the model; their results are parameters.
 */
module Background {
  import opened Wrappers
  import opened Text
  import opened Seqs
  import Panel

  // ---------------------------------------------------------------------------
  // Cookies

  datatype Cookie = Cookie(name: string, value: string)

  /** The cookie name looks like a session, remember-me or CSRF cookie. */
  predicate IsAuthCookie(c: Cookie) {
    || Contains(c.name, "_gitlab_session")
    || Contains(c.name, "_session")
    || Contains(c.name, "remember_user_token")
    || Contains(c.name, "csrf_token")
  }

  /** The authentication cookies, in their original order. */
  function AuthCookies(cookies: seq<Cookie>): (r: seq<Cookie>)
    ensures forall i :: 0 <= i < |r| ==> IsAuthCookie(r[i])
  {
    if cookies == [] then []
    else (if IsAuthCookie(cookies[0]) then [cookies[0]] else []) + AuthCookies(cookies[1..])
  }

  /** The filter keeps the original order. */
  lemma {:induction false} AuthCookiesOrdered(cookies: seq<Cookie>)
    ensures IsSubsequence(AuthCookies(cookies), cookies)
  {
    if cookies != [] {
      AuthCookiesOrdered(cookies[1..]);
      var rest := AuthCookies(cookies[1..]);
      if IsAuthCookie(cookies[0]) {
        assert AuthCookies(cookies)[1..] == rest;
      } else {
        assert AuthCookies(cookies) == rest;
        if rest != [] {
          assert IsAuthCookie(rest[0]) && rest[0] != cookies[0];
        }
      }
    }
  }

  /** The filter keeps every authentication cookie, as often as it occurs, and nothing else. */
  lemma {:induction false} AuthCookiesCounted(cookies: seq<Cookie>)
    ensures forall c :: multiset(AuthCookies(cookies))[c] == if IsAuthCookie(c) then multiset(cookies)[c] else 0
  {
    if cookies != [] {
      AuthCookiesCounted(cookies[1..]);
      assert cookies == [cookies[0]] + cookies[1..];
      assert multiset(cookies) == multiset{cookies[0]} + multiset(cookies[1..]);
    }
  }

  /** Some cookie is an authentication cookie exactly when the filter keeps one. */
  lemma {:induction false} AuthCookiesEmpty(cookies: seq<Cookie>)
    ensures |AuthCookies(cookies)| > 0 <==> exists i :: 0 <= i < |cookies| && IsAuthCookie(cookies[i])
  {
    if cookies != [] {
      AuthCookiesEmpty(cookies[1..]);
      if exists i :: 0 <= i < |cookies| && IsAuthCookie(cookies[i]) {
        var i :| 0 <= i < |cookies| && IsAuthCookie(cookies[i]);
        if i > 0 {
          assert IsAuthCookie(cookies[1..][i - 1]);
        }
      } else {
        forall i | 0 <= i < |cookies| - 1 ensures !IsAuthCookie(cookies[1..][i]) {
          assert cookies[1..][i] == cookies[i + 1];
        }
      }
    }
  }

  /** The cookies sent: the authentication cookies if there are any, otherwise all of them. */
  function SelectCookies(cookies: seq<Cookie>): seq<Cookie> {
    var auth := AuthCookies(cookies);
    if |auth| > 0 then auth else cookies
  }

  /** The selection, stated on the cookies themselves. */
  lemma CookieSelection(cookies: seq<Cookie>)
    ensures (exists i :: 0 <= i < |cookies| && IsAuthCookie(cookies[i])) ==>
      && IsSubsequence(SelectCookies(cookies), cookies)
      && forall c :: multiset(SelectCookies(cookies))[c] == if IsAuthCookie(c) then multiset(cookies)[c] else 0
    ensures (forall i :: 0 <= i < |cookies| ==> !IsAuthCookie(cookies[i])) ==>
      SelectCookies(cookies) == cookies
  {
    AuthCookiesEmpty(cookies);
    AuthCookiesOrdered(cookies);
    AuthCookiesCounted(cookies);
  }

  /** `name=value`. */
  function CookiePair(c: Cookie): string {
    c.name + "=" + c.value
  }

  function CookiePairs(cookies: seq<Cookie>): (r: seq<string>)
    ensures |r| == |cookies|
    ensures forall i :: 0 <= i < |r| ==> r[i] == CookiePair(cookies[i])
  {
    if cookies == [] then [] else [CookiePair(cookies[0])] + CookiePairs(cookies[1..])
  }

  /** The `Cookie` header value: the pairs joined by `; `. */
  function SerializeCookies(cookies: seq<Cookie>): string {
    Join(CookiePairs(cookies), "; ")
  }

  /** The pieces after the first, each with the space that followed the `;`. */
  function Spaced(parts: seq<string>): (r: seq<string>)
    requires |parts| >= 1
    ensures |r| == |parts| && r[0] == parts[0]
    ensures forall i :: 1 <= i < |parts| ==> r[i] == " " + parts[i]
  {
    [parts[0]] + seq(|parts| - 1, i requires 0 <= i < |parts| - 1 => " " + parts[i + 1])
  }

  lemma {:induction false} JoinSpaced(parts: seq<string>)
    requires |parts| >= 1
    ensures Join(parts, "; ") == Join(Spaced(parts), ";")
  {
    if |parts| > 1 {
      JoinSpaced(parts[1..]);
      var tail := Spaced(parts[1..]);
      var spaced := Spaced(parts);
      assert spaced[1..] == [" " + tail[0]] + tail[1..];
      if |parts| > 2 {
        assert Join(spaced[1..], ";") == " " + tail[0] + ";" + Join(tail[1..], ";");
        assert Join(tail, ";") == tail[0] + ";" + Join(tail[1..], ";");
      }
    }
  }

  /**
   * When no name or value holds `;`, splitting the header on `;` finds one
   * piece per cookie, the i-th being its `name=value` (after the space that
   * follows each `;`). No cookies give the empty header.
   */
  lemma CookieHeaderPieces(cookies: seq<Cookie>)
    requires forall i :: 0 <= i < |cookies| ==> ';' !in cookies[i].name && ';' !in cookies[i].value
    ensures cookies == [] ==> SerializeCookies(cookies) == ""
    ensures cookies != [] ==> Split(SerializeCookies(cookies), ';') == Spaced(CookiePairs(cookies))
  {
    if cookies != [] {
      var pairs := CookiePairs(cookies);
      JoinSpaced(pairs);
      var spaced := Spaced(pairs);
      forall i | 0 <= i < |spaced| ensures ';' !in spaced[i] {
        assert ';' !in CookiePair(cookies[i]);
      }
      SplitJoin(spaced, ';');
    }
  }

  /**
   * getCookies: the header for the cookies the store holds for the GitLab host;
   * `None` stands for a failure to read them (an unparsable URL or a store
   * error), which yields the empty string.
   */
  function CookieString(jar: Option<seq<Cookie>>): (s: string)
    ensures jar.None? ==> s == ""
    ensures jar.Some? ==> s == SerializeCookies(SelectCookies(jar.value))
  {
    match jar
    case None => ""
    case Some(cookies) => SerializeCookies(SelectCookies(cookies))
  }

  // ---------------------------------------------------------------------------
  // Headers from the page

  /** What the message to the page's content script came back with. */
  datatype HeaderReply = ChannelError | Replied(response: Option<map<string, string>>)

  /** getHeaders: the page's headers, or none when the channel failed or nothing answered. */
  function GetHeaders(reply: HeaderReply): (h: map<string, string>)
    ensures reply.ChannelError? || reply == Replied(None) ==> h == map[]
    ensures reply.Replied? && reply.response.Some? ==> h == reply.response.value
  {
    match reply
    case ChannelError => map[]
    case Replied(response) => response.GetOr(map[])
  }

  /** handleCheckCommits asks the page only for a truthy tab id (not absent, not 0). */
  function BatchHeaders(tabId: Option<int>, reply: HeaderReply): (h: map<string, string>)
    ensures tabId.None? || tabId == Some(0) ==> h == map[]
    ensures tabId.Some? && tabId.value != 0 ==> h == GetHeaders(reply)
  {
    if tabId.Some? && tabId.value != 0 then GetHeaders(reply) else map[]
  }

  // ---------------------------------------------------------------------------
  // The request

  /** The GitLab URL without the one trailing `/` it may end with. */
  function BaseUrl(gitlabUrl: string): (r: string)
    ensures r == gitlabUrl || r + "/" == gitlabUrl
    ensures (|gitlabUrl| > 0 && gitlabUrl[|gitlabUrl| - 1] == '/') <==> r + "/" == gitlabUrl
  {
    if |gitlabUrl| > 0 && gitlabUrl[|gitlabUrl| - 1] == '/' then gitlabUrl[..|gitlabUrl| - 1] else gitlabUrl
  }

  const ProjectsPath: string := "/api/v4/projects/"
  const CommitsQuery: string := "/repository/commits?ref_name="
  const OneResult: string := "&per_page=1"

  /** The commit-list endpoint for one project and branch; `enc` is `encodeURIComponent`. */
  function Endpoint(gitlabUrl: string, path: string, branch: string, enc: string -> string): string {
    BaseUrl(gitlabUrl) + ProjectsPath + enc(path) + CommitsQuery + enc(branch) + OneResult
  }

  /** Strings with a common prefix are equal when they are equal after it. */
  lemma CommonPrefix(p: string, x: string, y: string)
    requires p + x == p + y
    ensures x == y
  {
    assert x == (p + x)[|p|..];
  }

  /** Strings with a common suffix are equal when they are equal before it. */
  lemma CommonSuffix(x: string, y: string, q: string)
    requires x + q == y + q
    ensures x == y
  {
    assert x == (x + q)[..|x|];
  }

  /**
   * A string cut just before its first `/` is cut in one way only: the pieces
   * before the cut hold no `/`, and what follows starts with one.
   */
  lemma FirstSlashUnique(a: string, b: string, c: string, d: string)
    requires a + b == c + d
    requires '/' !in a && '/' !in c
    requires |b| > 0 && b[0] == '/' && |d| > 0 && d[0] == '/'
    ensures a == c && b == d
  {
    var s := a + b;
    assert s[|a|] == '/' && s[|c|] == '/';
    assert forall j :: 0 <= j < |a| ==> s[j] == a[j];
    assert forall j :: 0 <= j < |c| ==> s[j] == c[j];
    assert |a| == |c|;
    assert a == s[..|a|] == c;
    assert b == s[|a|..] == d;
  }

  /**
   * Distinct targets ask distinct URLs: an encoder that is one-to-one and never
   * produces `/` (as `encodeURIComponent` does) lets the endpoint determine
   * the path and the branch.
   */
  lemma EndpointDeterminesTarget(gitlabUrl: string, p1: string, b1: string, p2: string, b2: string,
                                 enc: string -> string)
    requires forall x, y :: enc(x) == enc(y) ==> x == y
    requires forall x :: '/' !in enc(x)
    requires Endpoint(gitlabUrl, p1, b1, enc) == Endpoint(gitlabUrl, p2, b2, enc)
    ensures p1 == p2 && b1 == b2
  {
    var prefix := BaseUrl(gitlabUrl) + ProjectsPath;
    var z1, z2 := enc(b1) + OneResult, enc(b2) + OneResult;
    var y1, y2 := CommitsQuery + z1, CommitsQuery + z2;
    EndpointParts(gitlabUrl, p1, b1, enc);
    EndpointParts(gitlabUrl, p2, b2, enc);
    CommonPrefix(prefix, enc(p1) + y1, enc(p2) + y2);
    FirstSlashUnique(enc(p1), y1, enc(p2), y2);
    CommonPrefix(CommitsQuery, z1, z2);
    CommonSuffix(enc(b1), enc(b2), OneResult);
  }

  /** The endpoint, grouped from the right. */
  lemma EndpointParts(gitlabUrl: string, path: string, branch: string, enc: string -> string)
    ensures Endpoint(gitlabUrl, path, branch, enc)
         == (BaseUrl(gitlabUrl) + ProjectsPath) + (enc(path) + (CommitsQuery + (enc(branch) + OneResult)))
  {
  }

  /**
   * The request headers: `Accept: application/json`, overridden by the page's
   * headers, then `Cookie` set to the cookie string when it is non-empty.
   */
  function RequestHeaders(headers: map<string, string>, cookies: string): (h: map<string, string>)
    ensures h.Keys == {"Accept"} + headers.Keys + (if cookies != "" then {"Cookie"} else {})
    ensures h["Accept"] == if "Accept" in headers then headers["Accept"] else "application/json"
    ensures cookies != "" ==> h["Cookie"] == cookies
    ensures forall k :: k in headers && (k != "Cookie" || cookies == "") ==> h[k] == headers[k]
  {
    var base := map["Accept" := "application/json"] + headers;
    if cookies != "" then base["Cookie" := cookies] else base
  }

  /** What is handed to `fetch`. */
  datatype Request = Request(url: string, headers: map<string, string>)

  // ---------------------------------------------------------------------------
  // The answer

  /** A JSON value; numbers are integers here. */
  datatype Json = JNull | JBool(b: bool) | JNum(n: int) | JStr(s: string)
                | JArr(items: seq<Json>) | JObj(fields: map<string, Json>)

  /** JavaScript truthiness of a parsed JSON value. */
  predicate Truthy(j: Json) {
    match j
    case JNull => false
    case JBool(b) => b
    case JNum(n) => n != 0
    case JStr(s) => s != ""
    case JArr(_) => true
    case JObj(_) => true
  }

  /** `String(j)`, what `new Error(j)` makes of a non-string message. */
  function JsString(j: Json): string
    decreases j, 1
  {
    match j
    case JNull => "null"
    case JBool(b) => if b then "true" else "false"
    case JNum(n) => IntToString(n)
    case JStr(s) => s
    case JArr(items) => JoinElements(items, j)
    case JObj(_) => "[object Object]"
  }

  /** `items.join(",")`, a `null` element writing as nothing. */
  function JoinElements(items: seq<Json>, ghost parent: Json): string
    requires forall i :: 0 <= i < |items| ==> items[i] < parent
    decreases parent, 0, |items|
  {
    if items == [] then ""
    else
      // ElementText(items[0]), written out here so that the call to JsString
      // decreases below `parent` rather than going through a further function.
      var first := if items[0] == JNull then "" else JsString(items[0]);
      if |items| == 1 then first else first + "," + JoinElements(items[1..], parent)
  }

  /** How one array element is written by `join`: `null` as nothing, anything else by `String`. */
  function ElementText(j: Json): string {
    if j == JNull then "" else JsString(j)
  }

  function ElementTexts(items: seq<Json>): (r: seq<string>)
    ensures |r| == |items| && forall i :: 0 <= i < |items| ==> r[i] == ElementText(items[i])
  {
    seq(|items|, i requires 0 <= i < |items| => ElementText(items[i]))
  }

  /** `String` of an array is its elements' texts joined by commas. */
  lemma {:induction false} JsStringArray(items: seq<Json>)
    ensures JsString(JArr(items)) == Join(ElementTexts(items), ",")
  {
    JoinElementsIsJoin(items, JArr(items));
  }

  lemma {:induction false} JoinElementsIsJoin(items: seq<Json>, parent: Json)
    requires forall i :: 0 <= i < |items| ==> items[i] < parent
    ensures JoinElements(items, parent) == Join(ElementTexts(items), ",")
  {
    if items != [] {
      JoinElementsIsJoin(items[1..], parent);
      assert ElementTexts(items)[1..] == ElementTexts(items[1..]);
    }
  }

  /** A message that is not a string reads as `String` gives it: `[1, null, "a"]` becomes `1,,a`. */
  lemma JsStringExample()
    ensures JsString(JArr([JNum(1), JNull, JStr("a")])) == "1,,a"
    ensures JsString(JObj(map[])) == "[object Object]" && JsString(JNum(-7)) == "-7"
  {
    JsStringArray([JNum(1), JNull, JStr("a")]);
    assert ElementTexts([JNum(1), JNull, JStr("a")]) == ["1", "", "a"];
  }

  /** What `response.json()` gave: a value, or the syntax error it threw. */
  datatype Body = Unparsable(syntaxError: string) | Parsed(value: Json)

  /** A response: its status, the outcome of reading its body as JSON, and the body as text. */
  datatype Response = Response(status: int, body: Body, text: string) {
    /** `response.ok`: a 2xx status. */
    predicate Ok() {
      200 <= status <= 299
    }
  }

  /** What `fetch` gave: a response, or the network error it threw. */
  datatype FetchReply = NetworkError(reason: string) | Received(response: Response)

  const Unauthorized: string := "未授权，请确保已登录GitLab"
  const ProjectNotFound: string := "项目不存在或无权限访问"
  const Forbidden: string := "无权限访问该项目"
  const NoCommits: string := "未找到提交记录"

  /** The most characters of a text body an error message keeps. */
  const MaxErrorText: nat := 100

  /** The fixed message for 401, 404 and 403. */
  function FriendlyMessage(status: int): (m: Option<string>)
    ensures m.Some? <==> status in {401, 403, 404}
  {
    if status == 401 then Some(Unauthorized)
    else if status == 404 then Some(ProjectNotFound)
    else if status == 403 then Some(Forbidden)
    else None
  }

  /** The first 100 characters of a non-empty text body. */
  function TextMessage(text: string): (m: Option<string>)
    ensures m.Some? <==> text != ""
    ensures m.Some? ==> StartsWith(text, m.value)
    ensures m.Some? ==> |m.value| == if |text| < MaxErrorText then |text| else MaxErrorText
  {
    if text == "" then None
    else Some(text[..if |text| < MaxErrorText then |text| else MaxErrorText])
  }

  /**
   * What the body of a failed response says, when it says anything: a truthy
   * `message` field of an object, or a JSON string itself; the text body when
   * the JSON could not be read, or was `null` (reading `.message` of `null`
   * throws, and that lands in the same handler).
   */
  function BodyMessage(r: Response): (m: Option<string>)
    ensures m.None? <==>
      || ((r.body.Unparsable? || r.body == Parsed(JNull)) && r.text == "")
      || (r.body.Parsed? && (r.body.value.JBool? || r.body.value.JNum? || r.body.value.JArr?))
      || (r.body.Parsed? && r.body.value.JObj?
          && !("message" in r.body.value.fields && Truthy(r.body.value.fields["message"])))
  {
    match r.body
    case Unparsable(_) => TextMessage(r.text)
    case Parsed(JNull) => TextMessage(r.text)
    case Parsed(JObj(fields)) =>
      if "message" in fields && Truthy(fields["message"]) then Some(JsString(fields["message"])) else None
    case Parsed(JStr(s)) => Some(s)
    case Parsed(_) => None
  }

  /** The error message for a failed response: the fixed message of its status, else what its body says, else `HTTP <status>`. */
  function ErrorMessageOf(r: Response): string {
    match FriendlyMessage(r.status)
    case Some(m) => m
    case None => BodyMessage(r).GetOr("HTTP " + IntToString(r.status))
  }

  /**
   * The message built in getLatestCommit for a response that is not ok:
   * `HTTP <status>` first, replaced by what the body says, and finally by the
   * fixed message for 401, 404 or 403.
   */
  method ErrorMessage(r: Response) returns (message: string)
    ensures message == ErrorMessageOf(r)
  {
    message := "HTTP " + IntToString(r.status);
    var readText := false;
    match r.body {
      case Parsed(data) =>
        if data.JNull? {
          readText := true;
        } else if data.JObj? && "message" in data.fields && Truthy(data.fields["message"]) {
          message := JsString(data.fields["message"]);
        } else if data.JStr? {
          message := data.s;
        }
      case Unparsable(_) =>
        readText := true;
    }
    if readText && r.text != "" {
      message := r.text[..if |r.text| < MaxErrorText then |r.text| else MaxErrorText];
    }
    if r.status == 401 {
      message := Unauthorized;
    } else if r.status == 404 {
      message := ProjectNotFound;
    } else if r.status == 403 {
      message := Forbidden;
    }
  }

  /** 401, 403 and 404 always give their fixed message, whatever the body holds. */
  lemma FriendlyOverrides(r: Response, r': Response)
    requires r.status == r'.status && r.status in {401, 403, 404}
    ensures ErrorMessageOf(r) == ErrorMessageOf(r')
    ensures r.status == 401 ==> ErrorMessageOf(r) == Unauthorized
    ensures r.status == 403 ==> ErrorMessageOf(r) == Forbidden
    ensures r.status == 404 ==> ErrorMessageOf(r) == ProjectNotFound
  {
  }

  /** Any other status keeps what the body says, and `HTTP <status>` when it says nothing. */
  lemma MessageLadder(r: Response)
    requires r.status !in {401, 403, 404}
    ensures BodyMessage(r).None? ==> ErrorMessageOf(r) == "HTTP " + IntToString(r.status)
    ensures r.body.Parsed? && (r.body.value.JBool? || r.body.value.JNum? || r.body.value.JArr?) ==>
              ErrorMessageOf(r) == "HTTP " + IntToString(r.status)
    ensures r.body.Parsed? && r.body.value.JObj?
            && !("message" in r.body.value.fields && Truthy(r.body.value.fields["message"])) ==>
              ErrorMessageOf(r) == "HTTP " + IntToString(r.status)
    ensures (r.body.Unparsable? || r.body == Parsed(JNull)) && r.text == "" ==>
              ErrorMessageOf(r) == "HTTP " + IntToString(r.status)
    ensures r.body.Parsed? && r.body.value.JObj? && "message" in r.body.value.fields
            && Truthy(r.body.value.fields["message"]) ==>
              ErrorMessageOf(r) == JsString(r.body.value.fields["message"])
    ensures r.body.Parsed? && r.body.value.JStr? ==> ErrorMessageOf(r) == r.body.value.s
    ensures (r.body.Unparsable? || r.body == Parsed(JNull)) && r.text != "" ==>
              && StartsWith(r.text, ErrorMessageOf(r))
              && |ErrorMessageOf(r)| == if |r.text| < MaxErrorText then |r.text| else MaxErrorText
  {
  }

  /**
   * The failure of a response that is not ok, as the code runs against a real
   * `Response`: once `response.json()` has read the body, `response.text()`
   * rejects with a TypeError (its message is `used`), which leaves the error
   * handler before the fixed messages are applied.
   */
  function ConsumedBodyFailure(r: Response, used: string): (message: string)
    ensures r.body.Parsed? && r.body.value != JNull ==> message == ErrorMessageOf(r)
    ensures r.body.Unparsable? || r.body == Parsed(JNull) ==> message == used
  {
    match r.body
    case Unparsable(_) => used
    case Parsed(JNull) => used
    case Parsed(_) => ErrorMessageOf(r)
  }

  /** A 404 whose body is not JSON loses its fixed message when the body is read twice. */
  lemma ConsumedBodyLosesFriendlyMessage()
    ensures var r := Response(404, Unparsable("SyntaxError"), "<html>Not Found</html>");
      && ConsumedBodyFailure(r, "body stream already read") == "body stream already read"
      && ErrorMessageOf(r) == ProjectNotFound
      && ConsumedBodyFailure(r, "body stream already read") != ErrorMessageOf(r)
  {
  }

  /** The commit of an ok response: the first element of a non-empty JSON array. */
  function FirstCommit(body: Body): (c: Result<Json, string>)
    ensures c.Success? <==> body.Parsed? && body.value.JArr? && |body.value.items| > 0
    ensures c.Success? ==> c.value == body.value.items[0]
    ensures body.Parsed? && c.Failure? ==> c.error == NoCommits
    ensures body.Unparsable? ==> c == Failure(body.syntaxError)
  {
    match body
    case Unparsable(e) => Failure(e)
    case Parsed(JArr(items)) => if |items| > 0 then Success(items[0]) else Failure(NoCommits)
    case Parsed(_) => Failure(NoCommits)
  }

  /** The outcome of one fetch: a commit, or the message of the error getLatestCommit throws. */
  function Outcome(reply: FetchReply): Result<Json, string> {
    match reply
    case NetworkError(reason) => Failure(reason)
    case Received(r) => if r.Ok() then FirstCommit(r.body) else Failure(ErrorMessageOf(r))
  }

  /** The request getLatestCommit sends. */
  function CommitRequest(gitlabUrl: string, path: string, branch: string, cookies: string,
                         headers: map<string, string>, enc: string -> string): Request {
    Request(Endpoint(gitlabUrl, path, branch, enc), RequestHeaders(headers, cookies))
  }

  /** The latest commit of one project, as getLatestCommit resolves or rejects. */
  function LatestCommit(gitlabUrl: string, path: string, branch: string, cookies: string,
                        headers: map<string, string>, enc: string -> string,
                        fetch: Request -> FetchReply): Result<Json, string> {
    Outcome(fetch(CommitRequest(gitlabUrl, path, branch, cookies, headers, enc)))
  }

  /** getLatestCommit: build the request step by step, send it, and classify the answer. */
  method GetLatestCommit(gitlabUrl: string, path: string, branch: string, cookies: string,
                         headers: map<string, string>, enc: string -> string,
                         fetch: Request -> FetchReply)
    returns (result: Result<Json, string>)
    ensures result == LatestCommit(gitlabUrl, path, branch, cookies, headers, enc, fetch)
    ensures fetch(CommitRequest(gitlabUrl, path, branch, cookies, headers, enc)).Received? ==>
      var r := fetch(CommitRequest(gitlabUrl, path, branch, cookies, headers, enc)).response;
      !r.Ok() ==> result == Failure(ErrorMessageOf(r))
  {
    var baseUrl := BaseUrl(gitlabUrl);
    var apiUrl := baseUrl + ProjectsPath + enc(path) + CommitsQuery + enc(branch) + OneResult;
    var requestHeaders := map["Accept" := "application/json"] + headers;
    if cookies != "" {
      requestHeaders := requestHeaders["Cookie" := cookies];
    }
    var reply := fetch(Request(apiUrl, requestHeaders));
    match reply {
      case NetworkError(reason) =>
        result := Failure(reason);
      case Received(r) =>
        if !r.Ok() {
          var message := ErrorMessage(r);
          result := Failure(message);
        } else {
          result := FirstCommit(r.body);
        }
    }
  }

  // ---------------------------------------------------------------------------
  // The batch

  /** One entry of the batch answer. */
  datatype CheckResult =
    | Checked(project: string, branch: string, data: Json)
    | CheckFailed(project: string, branch: string, error: string)

  /** The entry for one project. */
  function CheckOne(gitlabUrl: string, p: Panel.Project, cookies: string, headers: map<string, string>,
                    enc: string -> string, fetch: Request -> FetchReply): CheckResult {
    match LatestCommit(gitlabUrl, p.path, p.branch, cookies, headers, enc, fetch)
    case Success(commit) => Checked(p.path, p.branch, commit)
    case Failure(message) => CheckFailed(p.path, p.branch, message)
  }

  /**
   * The results in handleCheckCommits: one per project, in the projects' order,
   * each naming its project and branch and holding its own commit or error.
   * `fetch(i)` is the transport as project `i`'s own call sees it: each
   * project sends a request of its own, so two projects naming the same
   * target can still be answered differently.
   */
  function CheckAll(gitlabUrl: string, projects: seq<Panel.Project>, cookies: string,
                    headers: map<string, string>, enc: string -> string,
                    fetch: nat -> Request -> FetchReply): (results: seq<CheckResult>)
    ensures |results| == |projects|
    ensures forall i :: 0 <= i < |projects| ==>
      var commit := LatestCommit(gitlabUrl, projects[i].path, projects[i].branch, cookies, headers, enc, fetch(i));
      && results[i].project == projects[i].path
      && results[i].branch == projects[i].branch
      && (results[i].Checked? <==> commit.Success?)
      && (results[i].Checked? ==> results[i].data == commit.value)
      && (results[i].CheckFailed? ==> results[i].error == commit.error)
  {
    if projects == [] then []
    else
      var n := |projects| - 1;
      CheckAll(gitlabUrl, projects[..n], cookies, headers, enc, fetch)
      + [CheckOne(gitlabUrl, projects[n], cookies, headers, enc, fetch(n))]
  }

  /**
   * One entry depends on its own fetch alone: two transports that answer
   * project `j`'s request alike give the same entry `j`, whatever they
   * answer for the others.
   */
  lemma BatchIsolation(gitlabUrl: string, projects: seq<Panel.Project>, cookies: string,
                       headers: map<string, string>, enc: string -> string,
                       fetch1: nat -> Request -> FetchReply, fetch2: nat -> Request -> FetchReply, j: nat)
    requires j < |projects|
    requires var req := CommitRequest(gitlabUrl, projects[j].path, projects[j].branch, cookies, headers, enc);
      fetch1(j)(req) == fetch2(j)(req)
    ensures CheckAll(gitlabUrl, projects, cookies, headers, enc, fetch1)[j]
         == CheckAll(gitlabUrl, projects, cookies, headers, enc, fetch2)[j]
  {
  }

  /**
   * Checking a concatenation checks the first list as it would on its own,
   * and then each project of the second list through the call numbered on
   * from the first.
   */
  lemma {:induction false} CheckAllAppend(gitlabUrl: string, ps: seq<Panel.Project>, qs: seq<Panel.Project>,
                       cookies: string, headers: map<string, string>,
                       enc: string -> string, fetch: nat -> Request -> FetchReply)
    ensures CheckAll(gitlabUrl, ps + qs, cookies, headers, enc, fetch)[..|ps|]
         == CheckAll(gitlabUrl, ps, cookies, headers, enc, fetch)
    ensures forall k :: 0 <= k < |qs| ==>
      CheckAll(gitlabUrl, ps + qs, cookies, headers, enc, fetch)[|ps| + k]
      == CheckOne(gitlabUrl, qs[k], cookies, headers, enc, fetch(|ps| + k))
  {
    var all := CheckAll(gitlabUrl, ps + qs, cookies, headers, enc, fetch);
    var first := CheckAll(gitlabUrl, ps, cookies, headers, enc, fetch);
    CheckAllAt(gitlabUrl, ps + qs, cookies, headers, enc, fetch);
    CheckAllAt(gitlabUrl, ps, cookies, headers, enc, fetch);
    forall i | 0 <= i < |ps|
      ensures all[i] == first[i]
    {
      assert (ps + qs)[i] == ps[i];
    }
    forall k | 0 <= k < |qs|
      ensures all[|ps| + k] == CheckOne(gitlabUrl, qs[k], cookies, headers, enc, fetch(|ps| + k))
    {
      assert (ps + qs)[|ps| + k] == qs[k];
    }
    assert all[..|ps|] == first;
  }

  /**
   * The same target twice is fetched twice: one call can time out while the
   * other answers, and the two entries then differ.
   */
  lemma DuplicateTargetsFetchedApart(gitlabUrl: string, p: Panel.Project, cookies: string,
                                     headers: map<string, string>, enc: string -> string)
    ensures var fetch: nat -> Request -> FetchReply := i => req =>
              if i == 0 then NetworkError("timeout") else Received(Response(200, Parsed(JArr([JNull])), "[null]"));
      CheckAll(gitlabUrl, [p, p], cookies, headers, enc, fetch)
      == [CheckFailed(p.path, p.branch, "timeout"), Checked(p.path, p.branch, JNull)]
  {
    var fetch: nat -> Request -> FetchReply := i => req =>
      if i == 0 then NetworkError("timeout") else Received(Response(200, Parsed(JArr([JNull])), "[null]"));
    CheckAllAt(gitlabUrl, [p, p], cookies, headers, enc, fetch);
  }

  /** Entry `i` of the batch is the check of project `i` through its own call. */
  lemma {:induction false} CheckAllAt(gitlabUrl: string, projects: seq<Panel.Project>, cookies: string,
                                      headers: map<string, string>, enc: string -> string,
                                      fetch: nat -> Request -> FetchReply)
    ensures forall i :: 0 <= i < |projects| ==>
      CheckAll(gitlabUrl, projects, cookies, headers, enc, fetch)[i]
      == CheckOne(gitlabUrl, projects[i], cookies, headers, enc, fetch(i))
  {
    if projects != [] {
      var n := |projects| - 1;
      CheckAllAt(gitlabUrl, projects[..n], cookies, headers, enc, fetch);
    }
  }

  /** The `checkCommits` message from the panel. */
  datatype CheckMessage = CheckMessage(gitlabUrl: string, projects: seq<Panel.Project>, tabId: Option<int>)

  /**
   * handleCheckCommits: resolve the cookies and the page headers once, then
   * check every project with them. Neither lookup throws, so the answer always
   * carries results.
   */
  function HandleCheckCommits(msg: CheckMessage, jar: Option<seq<Cookie>>, reply: HeaderReply,
                              enc: string -> string, fetch: nat -> Request -> FetchReply)
    : (results: seq<CheckResult>)
    ensures |results| == |msg.projects|
    ensures forall i :: 0 <= i < |msg.projects| ==>
      && results[i].project == msg.projects[i].path
      && results[i].branch == msg.projects[i].branch
      && results[i] == CheckOne(msg.gitlabUrl, msg.projects[i], CookieString(jar),
                                BatchHeaders(msg.tabId, reply), enc, fetch(i))
    ensures msg.tabId.None? || msg.tabId == Some(0) ==>
      results == CheckAll(msg.gitlabUrl, msg.projects, CookieString(jar), map[], enc, fetch)
    ensures jar.None? ==>
      results == CheckAll(msg.gitlabUrl, msg.projects, "", BatchHeaders(msg.tabId, reply), enc, fetch)
  {
    var cookies := CookieString(jar);
    var headers := BatchHeaders(msg.tabId, reply);
    CheckAllAt(msg.gitlabUrl, msg.projects, cookies, headers, enc, fetch);
    CheckAll(msg.gitlabUrl, msg.projects, cookies, headers, enc, fetch)
  }
}
