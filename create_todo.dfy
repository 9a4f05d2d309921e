/** The to-do creation rule of specflow/src/todos/createTodo.js: a title of
    at least three characters after trimming, and a result that carries
    either the created to-do or a validation error. The generated id is a
    parameter. */
module Todos {
  import opened Json
  import opened Strings

  /** The two fields of the payload that the rule reads; a call without an
      argument (`payload = {}`) has both `Undefined`. */
  datatype Payload = Payload(title: Value, description: Value)

  datatype Todo = Todo(id: string, title: string, description: string)

  /** The `error` object of a rejected call. */
  datatype Error = Error(code: string, message: string)

  /** The one validation error the rule reports. */
  const TitleRequired := Error("TITLE_REQUIRED", "Title is required and must be at least 3 characters long")

  /** `{ ok: false, status, error: { code, message } }` or
      `{ ok: true, status, data }`, by what follows `ok` and `status`. */
  datatype Body = Failed(error: Error) | Created(todo: Todo)

  datatype Response = Response(ok: bool, status: int, body: Body)

  const MinTitleLength := 3

  /** `typeof payload.title === "string" ? payload.title.trim() : ""`. */
  function TitleOf(title: Value): (t: string)
    ensures title.Text? ==> t == Trim(title.s)
    ensures !title.Text? ==> t == []
  {
    if title.Text? then Trim(title.s) else []
  }

  /** `createTodo(payload)` with `id` for `crypto.randomUUID()`. */
  function CreateTodo(payload: Payload, id: string): (r: Response)
    ensures r.ok <==> r.status == 201
    ensures !r.ok <==> r.status == 422
    ensures r.ok <==> payload.title.Text? && Utf16Length(Trim(payload.title.s)) >= MinTitleLength
    ensures r.ok ==> r.body.Created? && r.body.todo.id == id
                     && r.body.todo.title == Trim(payload.title.s)
                     && r.body.todo.description == (if payload.description.Text? then payload.description.s else [])
    ensures !r.ok ==> r.body == Failed(TitleRequired)
  {
    var title := TitleOf(payload.title);
    if Utf16Length(title) < MinTitleLength then Response(false, 422, Failed(TitleRequired))
    else
      var description := if payload.description.Text? then payload.description.s else [];
      Response(true, 201, Created(Todo(id, title, description)))
  }

  /** A created to-do has a title of at least three UTF-16 code units (so
      at least two characters) with no whitespace at either end. */
  lemma CreatedTitleIsTrimmed(payload: Payload, id: string)
    requires CreateTodo(payload, id).ok
    ensures var t := CreateTodo(payload, id).body.todo.title;
            Utf16Length(t) >= MinTitleLength && |t| >= 2 && !IsWhitespace(t[0]) && !IsWhitespace(t[|t| - 1])
  {
    var t := Trim(payload.title.s);
    assert CreateTodo(payload, id).body.todo.title == t;
  }

  /** Submitting the stored title again is accepted and stores the same
      title: the rule is idempotent on its own output. */
  lemma {:induction false} ResubmitKeepsTitle(payload: Payload, id: string, description: Value, id2: string)
    requires CreateTodo(payload, id).ok
    ensures var again := CreateTodo(Payload(Text(CreateTodo(payload, id).body.todo.title), description), id2);
            again.ok && again.body.todo.title == CreateTodo(payload, id).body.todo.title
  {
    TrimIdempotent(payload.title.s);
  }

  /** A title that is absent, not a string, or blank is always rejected. */
  lemma NoTitleRejected(payload: Payload, id: string)
    requires !payload.title.Text? || IsBlank(payload.title.s)
    ensures CreateTodo(payload, id) == Response(false, 422, Failed(TitleRequired))
  {
  }

  /** The first vitest scenario: "Buy milk" with a description is created
      with that title. */
  lemma CreatesValidTodo(id: string)
    ensures var r := CreateTodo(Payload(Text("Buy milk"), Text("2L")), id);
            r.ok && r.status == 201 && r.body.todo.title == "Buy milk"
  {
    assert !IsWhitespace("Buy milk"[0]) && !IsWhitespace("Buy milk"[7]);
    assert TrimStart("Buy milk") == "Buy milk";
    assert TrimEnd("Buy milk") == "Buy milk";
    Utf16LengthBmp("Buy milk");
  }

  /** `length` counts UTF-16 code units: two characters outside the Basic
      Multilingual Plane make a long enough title. */
  lemma AstralTitleAccepted(id: string)
    ensures var r := CreateTodo(Payload(Text("\U{1F600}\U{1F600}"), Undefined), id);
            r.ok && r.body.todo.title == "\U{1F600}\U{1F600}"
  {
    var title := "\U{1F600}\U{1F600}";
    assert TrimStart(title) == title;
    assert TrimEnd(title) == title;
    assert title[1..][1..] == [];
    assert Utf16Length(title) == 4;
  }

  /** The second vitest scenario: an empty title is rejected with the code
      TITLE_REQUIRED. */
  lemma RejectsMissingTitle(id: string)
    ensures var r := CreateTodo(Payload(Text(""), Undefined), id);
            !r.ok && r.status == 422 && r.body.Failed? && r.body.error.code == "TITLE_REQUIRED"
  {
  }
}
