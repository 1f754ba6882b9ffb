/** chat_history.py: `SqliteChatMessageHistory`, a per-session message log kept in one table
    of an SQLite database file. The database is seen only as named tables of rows
    `(id, session_id, message)`; handles opened on the same file share one `Database`. */
module ChatHistory {
  import opened Wrappers
  import opened Errors
  import opened Sequencing

  /** The kinds of chat message the message schema knows, with the field each carries
      besides its content. */
  datatype MessageKind = Human | AI | System | Chat(role: string) | Function(name: string)

  /** A chat message: its kind and its text. */
  datatype Message = Message(kind: MessageKind, content: string)

  /** The stored form of a message, `_message_to_dict(message)`: its type name and its data
      fields. JSON text encoding and decoding of this value are not modelled. */
  datatype MessageDict = MessageDict(typeName: string, data: map<string, string>)

  function TypeName(k: MessageKind): string {
    match k
    case Human => "human"
    case AI => "ai"
    case System => "system"
    case Chat(_) => "chat"
    case Function(_) => "function"
  }

  /** `_message_to_dict`: the type name, and the content plus the kind's own field. */
  function ToDict(m: Message): (d: MessageDict)
    ensures d.typeName == TypeName(m.kind)
    ensures "content" in d.data && d.data["content"] == m.content
  {
    var data := map["content" := m.content];
    match m.kind
    case Chat(role) => MessageDict("chat", data["role" := role])
    case Function(name) => MessageDict("function", data["name" := name])
    case _ => MessageDict(TypeName(m.kind), data)
  }

  /** `_message_from_dict` for one item: the message class is picked by the type name; an
      unknown type raises ValueError, and data missing a required field fails validation,
      rendered here as ValueError as well. */
  function FromDict(d: MessageDict): (r: Result<Message, Exception>)
    ensures r.Success? ==> TypeName(r.value.kind) == d.typeName
    ensures r.Success? ==> "content" in d.data && r.value.content == d.data["content"]
    ensures d.typeName !in {"human", "ai", "system", "chat", "function"} ==>
      r == Failure(ValueError("Got unexpected message type: " + d.typeName))
  {
    if "content" !in d.data && d.typeName in {"human", "ai", "system", "chat", "function"} then
      Failure(ValueError("field required: content"))
    else if d.typeName == "human" then Success(Message(Human, d.data["content"]))
    else if d.typeName == "ai" then Success(Message(AI, d.data["content"]))
    else if d.typeName == "system" then Success(Message(System, d.data["content"]))
    else if d.typeName == "chat" then
      if "role" in d.data then Success(Message(Chat(d.data["role"]), d.data["content"]))
      else Failure(ValueError("field required: role"))
    else if d.typeName == "function" then
      if "name" in d.data then Success(Message(Function(d.data["name"]), d.data["content"]))
      else Failure(ValueError("field required: name"))
    else Failure(ValueError("Got unexpected message type: " + d.typeName))
  }

  /** A stored message reads back as the same message: same kind, same content. */
  lemma MessageRoundTrip(m: Message)
    ensures FromDict(ToDict(m)) == Success(m)
  {
  }

  /** `messages_from_dict(items)`: a comprehension converting every item in order, so the
      first item that fails to convert raises its exception. */
  function DecodeAll(ds: seq<MessageDict>): (r: Result<seq<Message>, Exception>)
    ensures r.Success? <==> forall i :: 0 <= i < |ds| ==> FromDict(ds[i]).Success?
    ensures r.Success? ==> |r.value| == |ds|
    ensures r.Success? ==> forall i :: 0 <= i < |ds| ==> FromDict(ds[i]) == Success(r.value[i])
    ensures r.Failure? ==>
      exists i :: 0 <= i < |ds| && FromDict(ds[i]) == Failure(r.error)
        && forall j :: 0 <= j < i ==> FromDict(ds[j]).Success?
  {
    MapAllPointwise(ds, FromDict);
    MapAllFirstFailure(ds, FromDict);
    MapAll(ds, FromDict)
  }

  function ToDicts(ms: seq<Message>): (ds: seq<MessageDict>)
    ensures |ds| == |ms| && forall i :: 0 <= i < |ms| ==> ds[i] == ToDict(ms[i])
  {
    seq(|ms|, i requires 0 <= i < |ms| => ToDict(ms[i]))
  }

  /** Messages stored by `add_message` read back exactly, in the order stored. */
  lemma DecodeAllRoundTrip(ms: seq<Message>)
    ensures DecodeAll(ToDicts(ms)) == Success(ms)
  {
    var r := DecodeAll(ToDicts(ms));
    forall i | 0 <= i < |ms|
      ensures FromDict(ToDicts(ms)[i]) == Success(ms[i])
    {
      MessageRoundTrip(ms[i]);
    }
    assert r.Success?;
    assert r.value == ms;
  }

  /** One row of the table; `updated_time` and its clock default are not modelled. */
  datatype Row = Row(id: nat, sessionId: string, message: MessageDict)

  /** A table: its rows in id order, and the largest id AUTOINCREMENT has handed out. */
  datatype Table = Table(rows: seq<Row>, lastId: nat)

  predicate IdsIncreasing(rows: seq<Row>) {
    forall i, j :: 0 <= i < j < |rows| ==> rows[i].id < rows[j].id
  }

  /** Row ids increase along the table and never pass the last id handed out. */
  predicate TableValid(t: Table) {
    && IdsIncreasing(t.rows)
    && (forall i :: 0 <= i < |t.rows| ==> t.rows[i].id <= t.lastId)
  }

  /** `INSERT INTO t (session_id, message) VALUES (?, ?)`: one new row at the end, under a
      fresh id. */
  function Inserted(t: Table, sessionId: string, d: MessageDict): (u: Table)
    ensures |u.rows| == |t.rows| + 1 && u.rows[..|t.rows|] == t.rows
    ensures u.rows[|t.rows|].sessionId == sessionId && u.rows[|t.rows|].message == d
    ensures TableValid(t) ==> TableValid(u)
  {
    Table(t.rows + [Row(t.lastId + 1, sessionId, d)], t.lastId + 1)
  }

  /** The stored messages of one session, in row order: `SELECT message ... WHERE session_id = ?`. */
  function SessionPayloads(rows: seq<Row>, sessionId: string): (ds: seq<MessageDict>)
    ensures |ds| <= |rows|
  {
    if rows == [] then []
    else
      var last := rows[|rows| - 1];
      SessionPayloads(rows[..|rows| - 1], sessionId) + (if last.sessionId == sessionId then [last.message] else [])
  }

  /** `DELETE FROM t WHERE session_id = ?`: the rows of every other session, in order. */
  function WithoutSession(rows: seq<Row>, sessionId: string): (rest: seq<Row>)
    ensures forall i :: 0 <= i < |rest| ==> rest[i].sessionId != sessionId && rest[i] in rows
  {
    if rows == [] then []
    else
      var last := rows[|rows| - 1];
      WithoutSession(rows[..|rows| - 1], sessionId) + (if last.sessionId == sessionId then [] else [last])
  }

  /** A session's stored messages are exactly the messages of its rows. */
  lemma {:induction false} SessionPayloadsMembers(rows: seq<Row>, sessionId: string, d: MessageDict)
    ensures d in SessionPayloads(rows, sessionId) <==>
      exists i :: 0 <= i < |rows| && rows[i].sessionId == sessionId && rows[i].message == d
  {
    if rows != [] {
      var n := |rows| - 1;
      SessionPayloadsMembers(rows[..n], sessionId, d);
      if exists i :: 0 <= i < |rows| && rows[i].sessionId == sessionId && rows[i].message == d {
        var i :| 0 <= i < |rows| && rows[i].sessionId == sessionId && rows[i].message == d;
        if i < n {
          assert rows[..n][i] == rows[i];
        }
      }
    }
  }

  /** A session with no row has no messages, and a session with no messages has no row. */
  lemma SessionEmptyIffNoRows(rows: seq<Row>, sessionId: string)
    ensures SessionPayloads(rows, sessionId) == [] <==>
      forall i :: 0 <= i < |rows| ==> rows[i].sessionId != sessionId
  {
    if SessionPayloads(rows, sessionId) == [] {
      forall i | 0 <= i < |rows| ensures rows[i].sessionId != sessionId {
        SessionPayloadsMembers(rows, sessionId, rows[i].message);
      }
    } else {
      var d := SessionPayloads(rows, sessionId)[0];
      SessionPayloadsMembers(rows, sessionId, d);
    }
  }

  /** An insert extends the inserting session's messages by the new one and leaves every
      other session's messages as they were. */
  lemma InsertedPayloads(t: Table, sessionId: string, d: MessageDict, other: string)
    ensures SessionPayloads(Inserted(t, sessionId, d).rows, sessionId) == SessionPayloads(t.rows, sessionId) + [d]
    ensures other != sessionId ==>
      SessionPayloads(Inserted(t, sessionId, d).rows, other) == SessionPayloads(t.rows, other)
  {
    var rows := Inserted(t, sessionId, d).rows;
    assert rows[..|rows| - 1] == t.rows;
  }

  /** Clearing a session leaves it with no messages and every other session's messages as
      they were. */
  lemma {:induction false} WithoutSessionPayloads(rows: seq<Row>, sessionId: string, other: string)
    ensures SessionPayloads(WithoutSession(rows, sessionId), sessionId) == []
    ensures other != sessionId ==>
      SessionPayloads(WithoutSession(rows, sessionId), other) == SessionPayloads(rows, other)
  {
    if rows != [] {
      var n := |rows| - 1;
      WithoutSessionPayloads(rows[..n], sessionId, other);
      var rest := WithoutSession(rows[..n], sessionId);
      if rows[n].sessionId == sessionId {
        assert WithoutSession(rows, sessionId) == rest;
      } else {
        var grown := rest + [rows[n]];
        assert WithoutSession(rows, sessionId) == grown;
        assert grown[..|grown| - 1] == rest;
        assert SessionPayloads(grown, sessionId) == SessionPayloads(rest, sessionId);
      }
    }
  }

  /** Deleting rows keeps the ids increasing. */
  lemma {:induction false} WithoutSessionIncreasing(rows: seq<Row>, sessionId: string)
    requires IdsIncreasing(rows)
    ensures IdsIncreasing(WithoutSession(rows, sessionId))
  {
    if rows != [] {
      var n := |rows| - 1;
      WithoutSessionIncreasing(rows[..n], sessionId);
      var rest := WithoutSession(rows[..n], sessionId);
      if rows[n].sessionId != sessionId {
        var grown := rest + [rows[n]];
        assert WithoutSession(rows, sessionId) == grown;
        forall i, j | 0 <= i < j < |grown| ensures grown[i].id < grown[j].id {
          if j == |rest| {
            assert rest[i] in rows[..n];
            var k :| 0 <= k < n && rows[..n][k] == rest[i];
            assert rows[k] == grown[i];
          } else {
            assert grown[i] == rest[i] && grown[j] == rest[j];
          }
        }
      } else {
        assert WithoutSession(rows, sessionId) == rest;
      }
    }
  }

  /** Clearing a session keeps the table valid. */
  lemma WithoutSessionValid(t: Table, sessionId: string)
    requires TableValid(t)
    ensures TableValid(Table(WithoutSession(t.rows, sessionId), t.lastId))
  {
    WithoutSessionIncreasing(t.rows, sessionId);
    var rest := WithoutSession(t.rows, sessionId);
    forall i | 0 <= i < |rest| ensures rest[i].id <= t.lastId {
      var k :| 0 <= k < |t.rows| && t.rows[k] == rest[i];
    }
  }

  /** The database file: its tables by name. Every handle opened on the file shares it. */
  class Database {
    var tables: map<string, Table>

    constructor ()
      ensures tables == map[]
    {
      tables := map[];
    }

    ghost predicate Valid()
      reads this
    {
      forall name :: name in tables ==> TableValid(tables[name])
    }
  }

  /** The default table name. */
  const DefaultTableName: string := "memory_store"

  /** SqliteChatMessageHistory: a handle on one session's messages in one table of a
      database. */
  class SqliteChatMessageHistory {
    const sessionId: string
    const tableName: string
    const db: Database

    ghost predicate Valid()
      reads this, db
    {
      db.Valid() && tableName in db.tables
    }

    /** `__init__`: connect, then `CREATE TABLE IF NOT EXISTS`, so the rows of a table that
        already exists are kept. */
    constructor (sessionId: string, db: Database, tableName: string)
      requires db.Valid()
      modifies db
      ensures this.sessionId == sessionId && this.tableName == tableName && this.db == db
      ensures Valid()
      ensures tableName in old(db.tables) ==> db.tables == old(db.tables)
      ensures tableName !in old(db.tables) ==> db.tables == old(db.tables)[tableName := Table([], 0)]
    {
      this.sessionId := sessionId;
      this.tableName := tableName;
      this.db := db;
      new;
      CreateTableIfNotExists();
    }

    /** `_create_table_if_not_exists`. */
    method CreateTableIfNotExists()
      requires db.Valid()
      modifies db
      ensures Valid()
      ensures tableName in old(db.tables) ==> db.tables == old(db.tables)
      ensures tableName !in old(db.tables) ==> db.tables == old(db.tables)[tableName := Table([], 0)]
    {
      if tableName !in db.tables {
        db.tables := db.tables[tableName := Table([], 0)];
      }
    }

    /** The `messages` property: this session's rows of this table, decoded in row order.
        The answer depends on the table and the session id alone, so two handles on the same
        database, table and session read the same messages. */
    method Messages() returns (r: Result<seq<Message>, Exception>)
      requires Valid()
      ensures r == DecodeAll(SessionPayloads(db.tables[tableName].rows, sessionId))
      ensures r.Success? ==> |r.value| == |SessionPayloads(db.tables[tableName].rows, sessionId)|
    {
      var items := SessionPayloads(db.tables[tableName].rows, sessionId);
      r := DecodeAll(items);
    }

    /** `add_message`: one row for this session holding the message's stored form is appended;
        no other row changes and no other table changes. */
    method AddMessage(m: Message)
      requires Valid()
      modifies db
      ensures Valid()
      ensures db.tables == old(db.tables)[tableName := Inserted(old(db.tables[tableName]), sessionId, ToDict(m))]
    {
      db.tables := db.tables[tableName := Inserted(db.tables[tableName], sessionId, ToDict(m))];
    }

    /** `clear`: every row of this session is deleted from the table; the other sessions'
        rows stay, in order. */
    method Clear()
      requires Valid()
      modifies db
      ensures Valid()
      ensures db.tables == old(db.tables)[tableName :=
        Table(WithoutSession(old(db.tables[tableName].rows), sessionId), old(db.tables[tableName].lastId))]
    {
      var t := db.tables[tableName];
      WithoutSessionValid(t, sessionId);
      db.tables := db.tables[tableName := Table(WithoutSession(t.rows, sessionId), t.lastId)];
    }
  }

  /** A history built only by `add_message` reads back as the messages added, in order: if a
      session's stored messages are the stored forms of `ms`, adding `m` makes them read back
      as `ms + [m]`, and another session still reads what it read. */
  lemma AddThenRead(t: Table, sessionId: string, ms: seq<Message>, m: Message, other: string)
    requires SessionPayloads(t.rows, sessionId) == ToDicts(ms)
    ensures SessionPayloads(Inserted(t, sessionId, ToDict(m)).rows, sessionId) == ToDicts(ms + [m])
    ensures DecodeAll(SessionPayloads(Inserted(t, sessionId, ToDict(m)).rows, sessionId)) == Success(ms + [m])
    ensures other != sessionId ==>
      DecodeAll(SessionPayloads(Inserted(t, sessionId, ToDict(m)).rows, other)) == DecodeAll(SessionPayloads(t.rows, other))
  {
    InsertedPayloads(t, sessionId, ToDict(m), other);
    assert ToDicts(ms) + [ToDict(m)] == ToDicts(ms + [m]);
    DecodeAllRoundTrip(ms + [m]);
  }

  /** A fresh table reads back empty for every session, and after a clear the cleared session
      reads back empty. */
  lemma EmptyReads(t: Table, sessionId: string)
    ensures DecodeAll(SessionPayloads([], sessionId)) == Success([])
    ensures DecodeAll(SessionPayloads(WithoutSession(t.rows, sessionId), sessionId)) == Success([])
  {
    WithoutSessionPayloads(t.rows, sessionId, sessionId);
  }
}
