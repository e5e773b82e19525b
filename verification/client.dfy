/** `ds_chat`: how one reply of the chat-completions service becomes either the assistant's
    text or an error. The HTTP exchange and the JSON decoding are inputs; the decision on the
    status and on the shape of the decoded body is modelled. */
module Client {
  import opened Wrappers
  import opened Errors
  import opened Text
  import opened Scripts

  /** A decoded JSON value. An object keeps its members in order; a repeated key reads as its
      last binding, as Python's `json` module builds the dict. */
  datatype Json =
    | JNull
    | JBool(b: bool)
    | JNumber(n: real)
    | JString(s: string)
    | JArray(items: seq<Json>)
    | JObject(members: seq<(string, Json)>)

  /** The body of a reply, as `r.json()` sees it. */
  datatype Body = Unparsable | Parsed(data: Json)

  /** What `requests.post` produced: no response at all (a timeout, a refused connection), or
      a status and a body. */
  datatype Exchange = NoResponse | Response(status: int, body: Body)

  /** Python truthiness of a decoded value. */
  predicate Truthy(v: Json) {
    match v
    case JNull => false
    case JBool(b) => b
    case JNumber(n) => n != 0.0
    case JString(s) => s != ""
    case JArray(items) => items != []
    case JObject(members) => members != []
  }

  /** No member after index `k` has `key`. */
  predicate LastWithKey(members: seq<(string, Json)>, key: string, k: nat) {
    forall j :: k < j < |members| ==> members[j].0 != key
  }

  /** `d[key]` on a dict: the last binding of `key`. */
  function Lookup(members: seq<(string, Json)>, key: string): (r: Option<Json>)
    ensures r.Some? <==> exists k :: 0 <= k < |members| && members[k].0 == key
    ensures r.Some? ==> exists k :: 0 <= k < |members| && members[k] == (key, r.value) && LastWithKey(members, key, k)
    decreases |members|
  {
    if |members| == 0 then None
    else if members[|members| - 1].0 == key then Some(members[|members| - 1].1)
    else
      var r := Lookup(members[..|members| - 1], key);
      assert forall k :: 0 <= k < |members| - 1 ==> members[..|members| - 1][k] == members[k];
      r
  }

  /** `v[key]` for a string key: only an object has one; anything else raises. */
  function Field(v: Json, key: string): Option<Json> {
    match v
    case JObject(members) => Lookup(members, key)
    case _ => None
  }

  /** `v[0]`: the first item of a non-empty list, or the first character of a non-empty
      string; a dict has no key 0 and anything else is not subscriptable. */
  function First(v: Json): Option<Json> {
    match v
    case JArray(items) => if items != [] then Some(items[0]) else None
    case JString(s) => if s != "" then Some(JString(s[..1])) else None
    case _ => None
  }

  /** `data["choices"][0]["message"]["content"]` */
  function ContentOf(data: Json): Option<Json> {
    match Field(data, "choices")
    case None => None
    case Some(choices) =>
      match First(choices)
      case None => None
      case Some(choice) =>
        match Field(choice, "message")
        case None => None
        case Some(message) => Field(message, "content")
  }

  /** `(content or "").strip()`: a falsy content reads as the empty string, and a truthy one
      that is not a string has no `strip`. */
  function ReadContent(content: Json): (r: Option<string>)
    ensures !Truthy(content) ==> r == Some("")
    ensures Truthy(content) && content.JString? ==> r == Some(Strip(content.s))
    ensures r.None? <==> Truthy(content) && !content.JString?
  {
    if !Truthy(content) then Some("")
    else match content
      case JString(s) => Some(Strip(s))
      case _ => None
  }

  /** Whether the status policy turns a status into an error. */
  predicate Rejected(policy: StatusPolicy, status: int) {
    match policy
    case RejectFrom400 => status == 429 || status >= 400
    case RejectAllBut200 => status != 200
  }

  /** The part of `ds_chat` inside its `try`: the assistant text of a decoded body, or the
      malformed-shape error. */
  function ReadReply(data: Json): (r: Result<string, Error>)
    ensures r.Success? ==> |r.value| == 0 || (!IsSpace(r.value[0]) && !IsSpace(r.value[|r.value| - 1]))
    ensures r.Failure? ==> r.error == UnexpectedShape
    ensures r.Success? ==> ContentOf(data).Some?
    ensures r.Success? ==>
      var c := ContentOf(data).value;
      (c.JString? && r.value == Strip(c.s)) || (!Truthy(c) && r.value == "")
    ensures r.Failure? <==> ContentOf(data).None? || (Truthy(ContentOf(data).value) && !ContentOf(data).value.JString?)
  {
    match ContentOf(data)
    case None => Failure(UnexpectedShape)
    case Some(content) =>
      match ReadContent(content)
      case None => Failure(UnexpectedShape)
      case Some(text) => Success(text)
  }

  /** The errors a call to the service can end with. */
  predicate ServiceError(e: Error) {
    e.Transport? || e.RateLimited? || e.ApiError? || e.NotJson? || e.UnexpectedShape?
  }

  /** `ds_chat`: the stripped assistant text, or the error it raises. */
  function DsChat(sc: Script, ex: Exchange): (r: Result<string, Error>)
    ensures r.Success? ==> ex.Response? && !Rejected(sc.status, ex.status) && ex.body.Parsed?
    ensures r.Success? ==> r == ReadReply(ex.body.data)
    ensures r.Failure? ==> ServiceError(r.error)
  {
    match ex
    case NoResponse => Failure(Transport)
    case Response(status, body) =>
      if sc.status == RejectFrom400 && status == 429 then Failure(RateLimited)
      else if Rejected(sc.status, status) then Failure(ApiError(status))
      else match body
        case Unparsable => Failure(NotJson)
        case Parsed(data) => ReadReply(data)
  }

  /** The body of a well-formed completion whose message content is `content`. */
  function Completion(content: Json): Json {
    JObject([("choices", JArray([JObject([("message", JObject([("content", content)]))])]))])
  }

  /** The content path of a completion leads to its content. */
  lemma CompletionContent(content: Json)
    ensures ContentOf(Completion(content)) == Some(content)
  {
    var data := Completion(content);
    assert Field(data, "choices").Some?;
    assert First(Field(data, "choices").value).Some?;
  }

  /** A completion is read back as its content: a string stripped, a falsy value as the empty
      string, and any other value refused as a malformed shape. */
  lemma CompletionRoundTrip(sc: Script, status: int, content: Json)
    requires !Rejected(sc.status, status)
    ensures content.JString? ==> DsChat(sc, Response(status, Parsed(Completion(content)))) == Success(Strip(content.s))
    ensures !Truthy(content) ==> DsChat(sc, Response(status, Parsed(Completion(content)))) == Success("")
    ensures Truthy(content) && !content.JString? ==> DsChat(sc, Response(status, Parsed(Completion(content)))) == Failure(UnexpectedShape)
  {
    CompletionContent(content);
    assert DsChat(sc, Response(status, Parsed(Completion(content)))) == ReadReply(Completion(content));
  }

  /** The classification of a reply: success exactly when the status is accepted, the body is
      JSON and the content path holds a string or a falsy value; otherwise the first check
      that fails names the error. */
  lemma DsChatSpec(sc: Script, ex: Exchange)
    ensures DsChat(sc, ex).Success? <==>
      && ex.Response? && !Rejected(sc.status, ex.status) && ex.body.Parsed?
      && ContentOf(ex.body.data).Some? && ReadContent(ContentOf(ex.body.data).value).Some?
    ensures DsChat(sc, ex) == Failure(Transport) <==> ex.NoResponse?
    ensures DsChat(sc, ex) == Failure(RateLimited) <==> sc.status == RejectFrom400 && ex.Response? && ex.status == 429
    ensures ex.Response? && ex.status >= 400 ==> DsChat(sc, ex).Failure?
    ensures DsChat(sc, ex) == Failure(NotJson) <==> ex.Response? && !Rejected(sc.status, ex.status) && ex.body.Unparsable?
  {
  }

  /** The two policies differ only at 429, which the Deepseek script reports as rate limiting
      and the en-gr script as an API error, and below 400 other than 200, where the Deepseek
      script reads the body and the en-gr script rejects the reply. */
  lemma PoliciesDiffer(ex: Exchange)
    requires ex.Response?
    ensures DsChat(Deepseek, ex) != DsChat(EnGr, ex) ==> ex.status == 429 || (ex.status != 200 && ex.status < 400)
    ensures ex.status != 200 && ex.status < 400 ==> DsChat(EnGr, ex) == Failure(ApiError(ex.status))
    ensures ex.status != 200 && ex.status < 400 && ex.status != 429 ==> DsChat(Deepseek, ex) != Failure(ApiError(ex.status))
  {
  }
}
