/**
 * The request logic of the Flask handlers in app.py, with the SQLite tables
 * shown as maps from row id to row. A request body is the parsed JSON value
 * (None when the request carries none), and a handler's effect is its HTTP
 * status together with the table after the call. The clock reading written
 * to `last_edited` and the row id the database hands out are parameters.
 */
module Server {
  import opened Text

  /** A parsed JSON value; numbers are integers. */
  datatype Json =
    | JNull
    | JBool(b: bool)
    | JNumber(n: int)
    | JString(s: string)
    | JArray(items: seq<Json>)
    | JObject(fields: map<string, Json>)

  type Row = map<string, Json>
  type Table = map<int, Row>

  /** What a handler answers and what the table holds afterwards. */
  datatype Outcome = Outcome(status: int, table: Table)

  /** Python's truth value of the decoded JSON value: null, false, 0, "", [] and {} are false. */
  predicate Truthy(j: Json): (r: bool)
    ensures r <==> j !in {JNull, JBool(false), JNumber(0), JString(""), JArray([]), JObject(map[])}
  {
    match j
    case JNull => false
    case JBool(b) => b
    case JNumber(n) => n != 0
    case JString(s) => s != ""
    case JArray(items) => items != []
    case JObject(fields) => fields != map[]
  }

  /** `data.get(key)` is truthy: the key is present with a truthy value. */
  predicate Given(fields: map<string, Json>, key: string) {
    key in fields && Truthy(fields[key])
  }

  /**
   * The first of `required` whose `data.get(...)` is falsy, as the chain of
   * `or`s in the handler meets them from left to right.
   */
  function MissingField(fields: map<string, Json>, required: seq<string>): (r: Option<string>)
    ensures r.None? <==> forall i :: 0 <= i < |required| ==> Given(fields, required[i])
    ensures r.Some? ==> r.value in required && !Given(fields, r.value)
    decreases |required|
  {
    if required == [] then None
    else if !Given(fields, required[0]) then Some(required[0])
    else MissingField(fields, required[1..])
  }

  /** The outcome of the guard at the top of a create handler. */
  datatype Check = Accepted(fields: map<string, Json>) | Rejected(status: int)

  /**
   * `if not data or not data.get(k1) or ...: return ..., 400`. A falsy body
   * or a missing or falsy field gives 400; a truthy body that is not an
   * object has no `get`, and the exception gives 500.
   */
  function CheckRequired(body: Option<Json>, required: seq<string>): (r: Check)
    ensures r == Rejected(400) <==>
      body.None? || !Truthy(body.value)
      || (body.value.JObject? && exists i :: 0 <= i < |required| && !Given(body.value.fields, required[i]))
    ensures r == Rejected(500) <==> body.Some? && Truthy(body.value) && !body.value.JObject?
    ensures r.Accepted? <==>
      body.Some? && body.value.JObject? && body.value.fields != map[]
      && forall i :: 0 <= i < |required| ==> Given(body.value.fields, required[i])
    ensures r.Accepted? ==> r.fields == body.value.fields
    ensures r.Rejected? ==> r.status == 400 || r.status == 500
  {
    if body.None? || !Truthy(body.value) then Rejected(400)
    else if !body.value.JObject? then Rejected(500)
    else if MissingField(body.value.fields, required).Some? then Rejected(400)
    else Accepted(body.value.fields)
  }

  /** sqlite3 binds null, numbers, booleans and strings; a list or an object raises an error. */
  predicate Bindable(j: Json) {
    !j.JArray? && !j.JObject?
  }

  /** Every value of the row can be bound, and no NOT NULL column receives null. */
  predicate Storable(row: Row, notNull: set<string>) {
    forall k :: k in row ==> Bindable(row[k]) && (k in notNull ==> row[k] != JNull)
  }

  /** The NOT NULL columns of the three tables created by `init_db`. */
  const DocumentNotNull: set<string> := {"title", "subject", "last_edited"}
  const NoteNotNull: set<string> := {"title", "content", "last_edited"}
  const EventNotNull: set<string> := {"title", "date", "time", "type"}

  /**
   * The end of a create handler once the guard has passed: the INSERT of
   * `row` under the fresh id, which the database refuses (500) when a value
   * cannot be stored.
   */
  function Insert(table: Table, id: int, row: Row, notNull: set<string>): (o: Outcome)
    requires id !in table
    ensures o.status == 201 || o.status == 500
    ensures o.status == 201 <==> Storable(row, notNull)
    ensures o.status == 201 ==> o.table.Keys == table.Keys + {id} && o.table == table[id := row]
    ensures o.status == 500 ==> o.table == table
  {
    if Storable(row, notNull) then Outcome(201, table[id := row]) else Outcome(500, table)
  }

  /** The row `create_document` inserts: the sent title and subject, and the time of the insert. */
  function DocumentRow(fields: map<string, Json>, now: Json): Row
    requires "title" in fields && "subject" in fields
  {
    map["title" := fields["title"], "subject" := fields["subject"], "last_edited" := now]
  }

  /** `create_document`: title and subject are obligatory; `last_edited` is the time of the insert. */
  function CreateDocument(table: Table, id: int, body: Option<Json>, now: Json): (o: Outcome)
    requires id !in table
    ensures o.status == 201 || o.status == 400 || o.status == 500
    ensures o.status == 400 <==>
      body.None? || !Truthy(body.value)
      || (body.value.JObject? && (!Given(body.value.fields, "title") || !Given(body.value.fields, "subject")))
    ensures o.status == 201 <==>
      && body.Some? && body.value.JObject?
      && Given(body.value.fields, "title") && Given(body.value.fields, "subject")
      && Storable(DocumentRow(body.value.fields, now), DocumentNotNull)
    ensures o.status == 201 ==> o.table == table[id := DocumentRow(body.value.fields, now)]
    ensures o.status != 201 ==> o.table == table
  {
    var required := ["title", "subject"];
    match CheckRequired(body, required)
    case Rejected(status) => Outcome(status, table)
    case Accepted(fields) =>
      assert Given(fields, required[0]) && Given(fields, required[1]);
      Insert(table, id, DocumentRow(fields, now), DocumentNotNull)
  }

  /**
   * The row `create_note` inserts: the sent title and content, the sent color
   * or "#FFFFFF" when the body has none (one sent as null stays null), and the
   * time of the insert.
   */
  function NoteRow(fields: map<string, Json>, now: Json): Row
    requires "title" in fields && "content" in fields
  {
    var color := if "color" in fields then fields["color"] else JString("#FFFFFF");
    map["title" := fields["title"], "content" := fields["content"], "color" := color, "last_edited" := now]
  }

  /** `create_note`: title and content are obligatory; the color defaults to "#FFFFFF" when left out. */
  function CreateNote(table: Table, id: int, body: Option<Json>, now: Json): (o: Outcome)
    requires id !in table
    ensures o.status == 201 || o.status == 400 || o.status == 500
    ensures o.status == 400 <==>
      body.None? || !Truthy(body.value)
      || (body.value.JObject? && (!Given(body.value.fields, "title") || !Given(body.value.fields, "content")))
    ensures o.status == 201 <==>
      && body.Some? && body.value.JObject?
      && Given(body.value.fields, "title") && Given(body.value.fields, "content")
      && Storable(NoteRow(body.value.fields, now), NoteNotNull)
    ensures o.status == 201 ==>
      && o.table == table[id := NoteRow(body.value.fields, now)]
      && o.table[id]["color"] == (if "color" in body.value.fields then body.value.fields["color"] else JString("#FFFFFF"))
    ensures o.status != 201 ==> o.table == table
  {
    var required := ["title", "content"];
    match CheckRequired(body, required)
    case Rejected(status) => Outcome(status, table)
    case Accepted(fields) =>
      assert Given(fields, required[0]) && Given(fields, required[1]);
      Insert(table, id, NoteRow(fields, now), NoteNotNull)
  }

  /** The row `create_event` inserts: the four fields as sent. */
  function EventRow(fields: map<string, Json>): Row
    requires "title" in fields && "date" in fields && "time" in fields && "type" in fields
  {
    map["title" := fields["title"], "date" := fields["date"], "time" := fields["time"], "type" := fields["type"]]
  }

  /** `create_event`: title, date, time and type are all obligatory and stored as sent. */
  function CreateEvent(table: Table, id: int, body: Option<Json>): (o: Outcome)
    requires id !in table
    ensures o.status == 201 || o.status == 400 || o.status == 500
    ensures o.status == 400 <==>
      body.None? || !Truthy(body.value)
      || (body.value.JObject? && (!Given(body.value.fields, "title") || !Given(body.value.fields, "date")
                                  || !Given(body.value.fields, "time") || !Given(body.value.fields, "type")))
    ensures o.status == 201 <==>
      && body.Some? && body.value.JObject?
      && Given(body.value.fields, "title") && Given(body.value.fields, "date")
      && Given(body.value.fields, "time") && Given(body.value.fields, "type")
      && Storable(EventRow(body.value.fields), EventNotNull)
    ensures o.status == 201 ==> o.table == table[id := EventRow(body.value.fields)]
    ensures o.status != 201 ==> o.table == table
  {
    var required := ["title", "date", "time", "type"];
    match CheckRequired(body, required)
    case Rejected(status) => Outcome(status, table)
    case Accepted(fields) =>
      assert Given(fields, required[0]) && Given(fields, required[1]) && Given(fields, required[2]) && Given(fields, required[3]);
      Insert(table, id, EventRow(fields), EventNotNull)
  }

  /**
   * With a text timestamp, a document whose title and subject are given is
   * refused by the database exactly when one of the two is a list or an object.
   */
  lemma DocumentRowStorable(fields: map<string, Json>, now: Json)
    requires Given(fields, "title") && Given(fields, "subject") && now.JString?
    ensures Storable(DocumentRow(fields, now), DocumentNotNull) <==> Bindable(fields["title"]) && Bindable(fields["subject"])
  {
  }

  /**
   * With a text timestamp, a note whose title and content are given is refused
   * exactly when title, content or the sent color is a list or an object; a
   * null color is stored, since the color column may be null.
   */
  lemma NoteRowStorable(fields: map<string, Json>, now: Json)
    requires Given(fields, "title") && Given(fields, "content") && now.JString?
    ensures Storable(NoteRow(fields, now), NoteNotNull) <==>
      Bindable(fields["title"]) && Bindable(fields["content"]) && ("color" in fields ==> Bindable(fields["color"]))
  {
    var row := NoteRow(fields, now);
    assert row["title"] == fields["title"] && row["content"] == fields["content"];
    assert "color" in fields ==> row["color"] == fields["color"];
  }

  /** An event whose four fields are given is refused exactly when one of them is a list or an object. */
  lemma EventRowStorable(fields: map<string, Json>)
    requires Given(fields, "title") && Given(fields, "date") && Given(fields, "time") && Given(fields, "type")
    ensures Storable(EventRow(fields), EventNotNull) <==>
      Bindable(fields["title"]) && Bindable(fields["date"]) && Bindable(fields["time"]) && Bindable(fields["type"])
  {
  }

  /**
   * `data.get(k, stored[k])` for every updatable column k: a column present
   * in the body takes the sent value, every other column keeps its own.
   */
  function Merge(stored: Row, fields: map<string, Json>, columns: set<string>): (row: Row)
    ensures row.Keys == stored.Keys + (columns * fields.Keys)
    ensures forall k :: k in columns && k in fields ==> row[k] == fields[k]
    ensures forall k :: k in stored && !(k in columns && k in fields) ==> row[k] == stored[k]
  {
    stored + map k | k in columns && k in fields :: fields[k]
  }

  /** Sending the same body twice merges to the same row as sending it once. */
  lemma MergeIdempotent(stored: Row, fields: map<string, Json>, columns: set<string>)
    ensures Merge(Merge(stored, fields, columns), fields, columns) == Merge(stored, fields, columns)
  {
  }

  /** A body that names none of the columns leaves the row as it was. */
  lemma MergeNothing(stored: Row, fields: map<string, Json>, columns: set<string>)
    requires columns * fields.Keys == {}
    ensures Merge(stored, fields, columns) == stored
  {
    var row := Merge(stored, fields, columns);
    assert row.Keys == stored.Keys;
    forall k | k in row
      ensures row[k] == stored[k]
    {
      assert !(k in fields && k in columns);
    }
  }

  /**
   * An update handler: 404 and no change for an unknown id; a body without
   * `get` (absent, null or not an object) raises, giving 500; otherwise the
   * merged row plus the `stamp` columns replaces the stored one, unless the
   * database refuses a value.
   */
  function UpdateRow(table: Table, id: int, body: Option<Json>, columns: set<string>,
                     stamp: Row, notNull: set<string>): (o: Outcome)
    ensures o.status == 404 <==> id !in table
    ensures o.status == 200 || o.status == 404 || o.status == 500
    ensures o.status == 200 <==>
      id in table && body.Some? && body.value.JObject?
      && Storable(Merge(table[id], body.value.fields, columns) + stamp, notNull)
    ensures o.status == 200 ==> o.table == table[id := Merge(table[id], body.value.fields, columns) + stamp]
    ensures o.status == 200 ==> Storable(o.table[id], notNull)
    ensures o.status != 200 ==> o.table == table
  {
    if id !in table then Outcome(404, table)
    else if body.None? || !body.value.JObject? then Outcome(500, table)
    else
      var row := Merge(table[id], body.value.fields, columns) + stamp;
      if Storable(row, notNull) then Outcome(200, table[id := row]) else Outcome(500, table)
  }

  /** `update_document`: title and subject may be replaced; `last_edited` is set to now. */
  function UpdateDocument(table: Table, id: int, body: Option<Json>, now: Json): (o: Outcome)
    ensures o.status == 404 <==> id !in table
    ensures o.status == 200 <==>
      id in table && body.Some? && body.value.JObject?
      && Storable(Merge(table[id], body.value.fields, {"title", "subject"}) + map["last_edited" := now], DocumentNotNull)
    ensures o.status == 200 ==> body.Some? && body.value.JObject? && id in table && o.table.Keys == table.Keys
    ensures o.status == 200 ==> o.table[id] == Merge(table[id], body.value.fields, {"title", "subject"}) + map["last_edited" := now]
    ensures o.status == 200 ==> forall k :: k in table && k != id ==> o.table[k] == table[k]
    ensures o.status == 200 ==> "last_edited" in o.table[id] && o.table[id]["last_edited"] == now
    ensures o.status == 200 ==> forall c | c in {"title", "subject"} ::
      c in o.table[id] <==> c in table[id] || c in body.value.fields
    ensures o.status == 200 ==> forall c | c in {"title", "subject"} && c in o.table[id] ::
      if c in body.value.fields then o.table[id][c] == body.value.fields[c]
      else c in table[id] && o.table[id][c] == table[id][c]
    ensures o.status != 200 ==> o.table == table
  {
    UpdateRow(table, id, body, {"title", "subject"}, map["last_edited" := now], DocumentNotNull)
  }

  /** `update_note`: title, content and color may be replaced; `last_edited` is set to now. */
  function UpdateNote(table: Table, id: int, body: Option<Json>, now: Json): (o: Outcome)
    ensures o.status == 404 <==> id !in table
    ensures o.status == 200 <==>
      id in table && body.Some? && body.value.JObject?
      && Storable(Merge(table[id], body.value.fields, {"title", "content", "color"}) + map["last_edited" := now], NoteNotNull)
    ensures o.status == 200 ==> body.Some? && body.value.JObject? && id in table && o.table.Keys == table.Keys
    ensures o.status == 200 ==> o.table[id] == Merge(table[id], body.value.fields, {"title", "content", "color"}) + map["last_edited" := now]
    ensures o.status == 200 ==> forall k :: k in table && k != id ==> o.table[k] == table[k]
    ensures o.status == 200 ==> "last_edited" in o.table[id] && o.table[id]["last_edited"] == now
    ensures o.status == 200 ==> forall c | c in {"title", "content", "color"} ::
      c in o.table[id] <==> c in table[id] || c in body.value.fields
    ensures o.status == 200 ==> forall c | c in {"title", "content", "color"} && c in o.table[id] ::
      if c in body.value.fields then o.table[id][c] == body.value.fields[c]
      else c in table[id] && o.table[id][c] == table[id][c]
    ensures o.status != 200 ==> o.table == table
  {
    UpdateRow(table, id, body, {"title", "content", "color"}, map["last_edited" := now], NoteNotNull)
  }

  /** `update_event`: title, date, time and type may be replaced; no timestamp is written. */
  function UpdateEvent(table: Table, id: int, body: Option<Json>): (o: Outcome)
    ensures o.status == 404 <==> id !in table
    ensures o.status == 200 <==>
      id in table && body.Some? && body.value.JObject?
      && Storable(Merge(table[id], body.value.fields, {"title", "date", "time", "type"}), EventNotNull)
    ensures o.status == 200 ==> body.Some? && body.value.JObject? && id in table && o.table.Keys == table.Keys
    ensures o.status == 200 ==> o.table[id] == Merge(table[id], body.value.fields, {"title", "date", "time", "type"})
    ensures o.status == 200 ==> forall k :: k in table && k != id ==> o.table[k] == table[k]
    ensures o.status == 200 ==> forall c | c in table[id] :: c in o.table[id]
    ensures o.status == 200 ==> forall c :: c in o.table[id] && c !in {"title", "date", "time", "type"} ==>
      c in table[id] && o.table[id][c] == table[id][c]
    ensures o.status == 200 ==> forall c | c in {"title", "date", "time", "type"} && c in o.table[id] ::
      if c in body.value.fields then o.table[id][c] == body.value.fields[c]
      else c in table[id] && o.table[id][c] == table[id][c]
    ensures o.status != 200 ==> o.table == table
  {
    UpdateRow(table, id, body, {"title", "date", "time", "type"}, map[], EventNotNull)
  }

  /**
   * When the stored row and the stamp can be stored, an update is refused by
   * the database exactly when one of the sent updatable values cannot be
   * bound, or is null for a NOT NULL column.
   */
  lemma UpdateStorable(stored: Row, fields: map<string, Json>, columns: set<string>, stamp: Row, notNull: set<string>)
    requires Storable(stored, notNull) && Storable(stamp, notNull)
    ensures Storable(Merge(stored, fields, columns) + stamp, notNull) <==>
      forall c | c in columns && c in fields && c !in stamp :: Bindable(fields[c]) && (c in notNull ==> fields[c] != JNull)
  {
    var row := Merge(stored, fields, columns) + stamp;
    if forall c | c in columns && c in fields && c !in stamp :: Bindable(fields[c]) && (c in notNull ==> fields[c] != JNull) {
      forall k | k in row
        ensures Bindable(row[k]) && (k in notNull ==> row[k] != JNull)
      {
        if k !in stamp && !(k in columns && k in fields) {
          assert row[k] == stored[k];
        }
      }
    } else {
      var c :| c in columns && c in fields && c !in stamp && !(Bindable(fields[c]) && (c in notNull ==> fields[c] != JNull));
      assert row[c] == fields[c];
    }
  }

  /** Repeating an accepted update with the same body and clock reading changes nothing further. */
  lemma UpdateIdempotent(table: Table, id: int, body: Option<Json>, columns: set<string>, stamp: Row, notNull: set<string>)
    requires UpdateRow(table, id, body, columns, stamp, notNull).status == 200
    ensures var once := UpdateRow(table, id, body, columns, stamp, notNull);
      UpdateRow(once.table, id, body, columns, stamp, notNull) == once
  {
    var row := Merge(table[id], body.value.fields, columns) + stamp;
    var again := Merge(row, body.value.fields, columns) + stamp;
    assert again == row;
  }

  /** An update whose object names no updatable column only rewrites the stamp columns. */
  lemma UpdateWithoutColumns(table: Table, id: int, fields: map<string, Json>, columns: set<string>, stamp: Row, notNull: set<string>)
    requires columns * fields.Keys == {}
    requires UpdateRow(table, id, Some(JObject(fields)), columns, stamp, notNull).status == 200
    ensures UpdateRow(table, id, Some(JObject(fields)), columns, stamp, notNull).table == table[id := table[id] + stamp]
  {
    MergeNothing(table[id], fields, columns);
  }

  /** The three SELECTs `get_events` can run. */
  datatype EventQuery = OnDate(date: string) | InMonth(prefix: string) | AllEvents

  /**
   * `request.args.get` gives a string or None; a query parameter counts when
   * it is a non-empty string.
   */
  function ChooseEventQuery(month: Option<string>, day: Option<string>): (q: EventQuery)
    ensures q.OnDate? <==> month.GetOr("") != "" && day.GetOr("") != ""
    ensures q.InMonth? <==> month.GetOr("") != "" && day.GetOr("") == ""
    ensures q.AllEvents? <==> month.GetOr("") == ""
    ensures q.OnDate? ==> q.date == month.value + "-" + day.value
    ensures q.InMonth? ==> q.prefix == month.value
  {
    var m, d := month.GetOr(""), day.GetOr("");
    if d != "" && m != "" then OnDate(m + "-" + d)
    else if m != "" then InMonth(m)
    else AllEvents
  }

  /** The `date` column of a row, when it holds text. */
  function DateText(row: Row): Option<string> {
    if "date" in row && row["date"].JString? then Some(row["date"].s) else None
  }

  /**
   * The WHERE clause of each query: `date = ?` compares the whole text,
   * `date LIKE 'month%'` asks for the text to begin with the month.
   */
  predicate Matches(row: Row, q: EventQuery): (r: bool)
    ensures q.AllEvents? ==> r
    ensures q.OnDate? ==> (r <==> "date" in row && row["date"] == JString(q.date))
    ensures q.InMonth? ==> (r <==> "date" in row && row["date"].JString?
                                   && |q.prefix| <= |row["date"].s| && row["date"].s[..|q.prefix|] == q.prefix)
  {
    match q
    case OnDate(date) => DateText(row) == Some(date)
    case InMonth(prefix) => DateText(row).Some? && prefix <= DateText(row).value
    case AllEvents => true
  }

  /** The ids of the rows a query returns; the SQL ORDER BY is not part of the model. */
  function SelectEvents(table: Table, q: EventQuery): (ids: set<int>)
    ensures ids <= table.Keys
    ensures q.AllEvents? ==> ids == table.Keys
    ensures forall id :: id in ids <==> id in table && Matches(table[id], q)
  {
    set id | id in table && Matches(table[id], q)
  }

  /**
   * `get_events` as a whole: with month and day the events dated exactly
   * `month-day`, with only a month the events whose date begins with it,
   * otherwise all events.
   */
  function GetEvents(table: Table, month: Option<string>, day: Option<string>): (ids: set<int>)
    ensures ids <= table.Keys
    ensures month.GetOr("") != "" && day.GetOr("") != "" ==>
      forall id | id in table :: id in ids <==> DateText(table[id]) == Some(month.value + "-" + day.value)
    ensures month.GetOr("") != "" && day.GetOr("") == "" ==>
      forall id | id in table :: id in ids <==>
        DateText(table[id]).Some? && |month.value| <= |DateText(table[id]).value|
        && DateText(table[id]).value[..|month.value|] == month.value
    ensures month.GetOr("") == "" ==> ids == table.Keys
  {
    SelectEvents(table, ChooseEventQuery(month, day))
  }

  /** Asking for a day of a month returns some of the events the month alone returns. */
  lemma DayWithinMonth(table: Table, month: string, day: string)
    requires month != "" && day != ""
    ensures var both := SelectEvents(table, ChooseEventQuery(Some(month), Some(day)));
      both <= SelectEvents(table, ChooseEventQuery(Some(month), None))
  {
    var both := SelectEvents(table, ChooseEventQuery(Some(month), Some(day)));
    forall id | id in both
      ensures Matches(table[id], InMonth(month))
    {
      var date := month + "-" + day;
      assert DateText(table[id]) == Some(date);
      assert date[..|month|] == month;
    }
  }

  /** Every query returns some of the events the unfiltered query returns. */
  lemma FiltersNarrow(table: Table, month: Option<string>, day: Option<string>)
    ensures SelectEvents(table, ChooseEventQuery(month, day)) <= SelectEvents(table, ChooseEventQuery(None, None))
  {
  }

  /**
   * `format_last_edited` on the whole number of days since the last edit
   * (Python's `timedelta.days`, negative for a time in the future).
   */
  function FormatLastEdited(days: int): (s: string)
    ensures s == "Hoy" <==> days == 0
    ensures s == "Ayer" <==> days == 1
    ensures days != 0 && days != 1 ==> |s| > 5 && s[..5] == "Hace "
  {
    if days == 0 then "Hoy"
    else if days == 1 then "Ayer"
    else if days < 7 then "Hace " + IntToString(days) + " días"
    else
      var weeks := days / 7;
      "Hace " + IntToString(weeks) + " semana" + (if weeks > 1 then "s" else "")
  }

  /** Which bucket a day count falls in, and what the label then says about it. */
  lemma LabelDeterminesBucket(a: int, b: int)
    requires FormatLastEdited(a) == FormatLastEdited(b)
    ensures a < 7 <==> b < 7
    ensures a < 7 ==> a == b
    ensures a >= 7 ==> a / 7 == b / 7
  {
    if a == 0 || a == 1 || b == 0 || b == 1 {
    } else if a < 7 && b < 7 {
      DaysLabelInjective(a, b);
    } else if a >= 7 && b >= 7 {
      WeeksLabelInjective(a, b);
    } else if a < 7 {
      DaysNotWeeks(a, b);
    } else {
      DaysNotWeeks(b, a);
    }
  }

  /** Below a week, different day counts get different labels. */
  lemma DaysLabelInjective(a: int, b: int)
    requires a < 7 && b < 7 && a != 0 && a != 1 && b != 0 && b != 1
    requires FormatLastEdited(a) == FormatLastEdited(b)
    ensures a == b
  {
    var s := FormatLastEdited(a);
    var x, y := IntToString(a), IntToString(b);
    assert s == "Hace " + x + " días";
    assert s == "Hace " + y + " días";
    assert x == s[5..|s| - 5];
    assert y == s[5..|s| - 5];
    IntToStringInjective(a, b);
  }

  /** From a week on, the label determines the number of whole weeks. */
  lemma WeeksLabelInjective(a: int, b: int)
    requires a >= 7 && b >= 7
    requires FormatLastEdited(a) == FormatLastEdited(b)
    ensures a / 7 == b / 7
  {
    var s := FormatLastEdited(a);
    var u, v := IntToString(a / 7), IntToString(b / 7);
    WeeksPlural(a);
    WeeksPlural(b);
    if a >= 14 {
      assert s == "Hace " + u + " semanas";
      assert s == "Hace " + v + " semanas";
      assert u == s[5..|s| - 8];
      assert v == s[5..|s| - 8];
    } else {
      assert s == "Hace " + u + " semana";
      assert s == "Hace " + v + " semana";
      assert u == s[5..|s| - 7];
      assert v == s[5..|s| - 7];
    }
    IntToStringInjective(a / 7, b / 7);
  }

  /** A "days" label never equals a "weeks" label: they differ three characters from the end. */
  lemma DaysNotWeeks(d: int, w: int)
    requires d < 7 && d != 0 && d != 1 && w >= 7
    ensures FormatLastEdited(d) != FormatLastEdited(w)
  {
    var s, t := FormatLastEdited(d), FormatLastEdited(w);
    assert s[|s| - 3] == 'í';
    if w / 7 > 1 {
      assert t[|t| - 3] == 'n';
    } else {
      assert t[|t| - 3] == 'a';
    }
  }

  /** A weeks label ends in "s" exactly from two weeks on. */
  lemma WeeksPlural(days: int)
    requires days >= 7
    ensures var s := FormatLastEdited(days); s[|s| - 1] == 's' <==> days >= 14
  {
  }
}
