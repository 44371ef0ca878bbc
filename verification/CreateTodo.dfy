/** `POST /api/todos`: validate the body's title, issue one insert of the
    trimmed title with `is_done = false`, and map the store's answer to a
    response. The store and body parsing are inputs, so the handler is a total
    function from (parsed body, store reply) to (status, body, insert issued). */
module CreateTodo {
  import opened JsString
  import opened Json
  import opened Optional

  /** A row of the `todos` table, as the store returns it. */
  datatype TodoRow = TodoRow(id: string, title: string, isDone: bool, createdAt: string, updatedAt: string)

  /** The object handed to the store's insert. */
  datatype InsertPayload = InsertPayload(title: string, isDone: bool)

  /** What `request.json()` gave: a rejected promise, or a JSON value. */
  datatype RequestBody = Malformed | Parsed(json: Json)

  /** What the insert-select-single call chain gave: the inserted row, an error
      object with a message, or a thrown exception. */
  datatype StoreReply = Inserted(row: TodoRow) | StoreError(message: string) | StoreThrew

  datatype ResponseBody = ErrorBody(error: string) | RowBody(row: TodoRow)

  /** The handler's observable effect: the response, and the insert it issued
      (None when no store call was made). */
  datatype Outcome = Outcome(status: int, body: ResponseBody, insert: Option<InsertPayload>)

  const TitleRequired: string := "title is required"
  const InvalidBody: string := "Invalid request body"

  /** A title falsy in JavaScript or a string of whitespace only. */
  predicate FalsyOrBlank(v: Json) {
    || v.JNull?
    || v == JBool(false)
    || v == JNumber(0.0)
    || (v.JString? && AllWhitespace(v.s))
  }

  /** A body object whose title is missing, falsy or blank: the "title is
      required" case. A body that is not an object has no title at all. */
  predicate TitleMissingOrBlank(body: Json) {
    && !body.JNull?
    && (!body.JObject? || "title" !in body.fields || FalsyOrBlank(body.fields["title"]))
  }

  /** A truthy title that is not a string: `title.trim` is not a function,
      so calling it throws. */
  predicate TitleNotTrimmable(body: Json) {
    && body.JObject? && "title" in body.fields
    && var v := body.fields["title"];
       v == JBool(true) || (v.JNumber? && v.n != 0.0) || v.JArray? || v.JObject?
  }

  /** A body carrying a string title with at least one non-whitespace character. */
  predicate HasValidTitle(req: RequestBody) {
    && req.Parsed? && req.json.JObject? && "title" in req.json.fields
    && req.json.fields["title"].JString?
    && !AllWhitespace(req.json.fields["title"].s)
  }

  function TitleOf(req: RequestBody): string
    requires HasValidTitle(req)
  {
    req.json.fields["title"].s
  }

  /** The POST handler. */
  function Post(req: RequestBody, store: StoreReply): (o: Outcome)
    ensures o.status == 201 || o.status == 400 || o.status == 500
    ensures o.insert.Some? <==> HasValidTitle(req)
    ensures o.insert.Some? ==> o.insert.value == InsertPayload(Trim(TitleOf(req)), false)
    ensures o.insert.Some? ==> o.insert.value.title != "" && NoEdgeWhitespace(o.insert.value.title)
    ensures o.status == 201 <==> HasValidTitle(req) && store.Inserted?
    ensures o.status == 201 ==> o.body == RowBody(store.row)
    ensures o.status == 500 <==> HasValidTitle(req) && store.StoreError?
    ensures o.status == 500 ==> o.body == ErrorBody(store.message)
    ensures o.status == 400 ==> o.body == ErrorBody(TitleRequired) || o.body == ErrorBody(InvalidBody)
  {
    match req
    case Malformed => Outcome(400, ErrorBody(InvalidBody), None)
    case Parsed(body) =>
      match ReadTitle(body)
      case None => Outcome(400, ErrorBody(InvalidBody), None)
      case Some(title) =>
        if !Truthy(title) then Outcome(400, ErrorBody(TitleRequired), None)
        else if !title.value.JString? then Outcome(400, ErrorBody(InvalidBody), None)
        else
          var s := title.value.s;
          TrimEmptyIffBlank(s);
          if Trim(s) == "" then Outcome(400, ErrorBody(TitleRequired), None)
          else
            var payload := InsertPayload(Trim(s), false);
            match store
            case StoreError(message) => Outcome(500, ErrorBody(message), Some(payload))
            case Inserted(row) => Outcome(201, RowBody(row), Some(payload))
            case StoreThrew => Outcome(400, ErrorBody(InvalidBody), Some(payload))
  }

  /** "title is required" is answered exactly for a readable body whose title is
      missing, falsy, or whitespace only, and then nothing is inserted. */
  lemma PostTitleRequired(req: RequestBody, store: StoreReply)
    ensures Post(req, store) == Outcome(400, ErrorBody(TitleRequired), None)
        <==> req.Parsed? && TitleMissingOrBlank(req.json)
  {
    if req.Parsed? && req.json.JObject? && "title" in req.json.fields && req.json.fields["title"].JString? {
      TrimEmptyIffBlank(req.json.fields["title"].s);
    }
  }

  /** "Invalid request body" with no insert is answered exactly when the body
      does not parse, is `null`, or has a truthy title that is not a string. */
  lemma PostInvalidBody(req: RequestBody, store: StoreReply)
    ensures Post(req, store) == Outcome(400, ErrorBody(InvalidBody), None)
        <==> req.Malformed? || req.json.JNull? || TitleNotTrimmable(req.json)
  {
  }

  /** A valid title reaches the store once, and the store's answer decides the
      response: the row with 201, its message with 500, and a throw from the
      call chain is reported as an invalid body. */
  lemma PostValidTitle(req: RequestBody, store: StoreReply)
    requires HasValidTitle(req)
    ensures Post(req, store).insert == Some(InsertPayload(Trim(TitleOf(req)), false))
    ensures store.Inserted? ==> Post(req, store).status == 201 && Post(req, store).body == RowBody(store.row)
    ensures store.StoreError? ==> Post(req, store).status == 500 && Post(req, store).body == ErrorBody(store.message)
    ensures store.StoreThrew? ==> Post(req, store).status == 400 && Post(req, store).body == ErrorBody(InvalidBody)
  {
  }

  /** Every request falls in exactly one of the four cases the handler tells
      apart. */
  lemma RequestCasesPartition(req: RequestBody)
    ensures var unreadable := req.Malformed? || req.json.JNull?;
            var required := req.Parsed? && TitleMissingOrBlank(req.json);
            var notTrimmable := req.Parsed? && TitleNotTrimmable(req.json);
            var valid := HasValidTitle(req);
            && (unreadable || required || notTrimmable || valid)
            && !(unreadable && required) && !(unreadable && notTrimmable) && !(unreadable && valid)
            && !(required && notTrimmable) && !(required && valid) && !(notTrimmable && valid)
  {
    if req.Parsed? && req.json.JObject? && "title" in req.json.fields {
      var v := req.json.fields["title"];
      if v.JNumber? && v.n == 0.0 {
        assert v == JNumber(0.0);
      }
    }
  }

  /** A title padded with whitespace on both sides inserts exactly the text
      between the padding, not done. */
  lemma PostTrimsPaddedTitle(pre: string, text: string, post: string, store: StoreReply)
    requires AllWhitespace(pre) && AllWhitespace(post)
    requires text != "" && NoEdgeWhitespace(text)
    ensures Post(Parsed(JObject(map["title" := JString(pre + text + post)])), store).insert
         == Some(InsertPayload(text, false))
  {
    var title := pre + text + post;
    TrimOfFramed(pre, text, post);
    TrimEmptyIffBlank(title);
  }

  /** A body `{"title": "  buy milk  "}` inserts "buy milk", not done. */
  lemma PostTrimsTitleExample(store: StoreReply)
    ensures Post(Parsed(JObject(map["title" := JString("  buy milk  ")])), store).insert
         == Some(InsertPayload("buy milk", false))
  {
    assert "  buy milk  " == "  " + "buy milk" + "  ";
    PostTrimsPaddedTitle("  ", "buy milk", "  ", store);
  }
}
