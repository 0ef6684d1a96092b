/**
 Import documents in their two written forms: the create form, which omits what
 the runtime owns, and the update form, which clears it or leaves it alone.
 */
module ImportSanitize {
  import opened Prelude
  import opened Collections
  import opened GraphqlLiteral
  import Text

  type Fields = map<string, Json>

  function Get(fields: Fields, key: string): Option<Json>
  {
    if key in fields then Some(fields[key]) else None
  }

  /** A row reads an absent field and a null one alike. */
  function Read(row: Fields, key: string): Option<Json>
  {
    if key in row && row[key] != Null then Some(row[key]) else None
  }

  const EmptyList: Json := Array([])

  // ----- the fields each collection gives up

  const RuntimeStamps: seq<string> := ["created_at", "updated_at"]

  const ScheduleRuntime: seq<string> :=
    ["next_run_at", "last_attempt_at", "last_status", "last_error", "fire_count", "created_at", "updated_at"]

  const TriggerRuntime: seq<string> :=
    ["last_attempt_at", "last_fired_source_doc_id", "last_status", "last_error", "fire_count", "created_at", "updated_at"]

  /** Removed from both forms. */
  function Removed(c: Collection): seq<string>
  {
    match c
    case InferenceBackend => ["last_probe"]
    case Task => RuntimeStamps
    case Schedule => ScheduleRuntime
    case EventTrigger => TriggerRuntime
    case ToolServiceRegistry => ["tools", "version", "updated_at", "status"]
    case ProjectionAcpBinding => RuntimeStamps
    case _ => []
  }

  /** Written as null by the update form. */
  function Cleared(c: Collection): seq<string>
  {
    match c
    case InferenceBackend => ["last_probe"]
    case ToolServiceRegistry => ["updated_at"]
    case Task => RuntimeStamps
    case Schedule => RuntimeStamps
    case EventTrigger => RuntimeStamps
    case ProjectionAcpBinding => RuntimeStamps
    case _ => []
  }

  // ----- tool service addresses

  const ADDRESS_FIELDS: seq<string> := ["hostname", "tailscale_ip", "lan_ip"]

  function OptionalString(value: Option<Json>): Result<Option<string>, ()>
  {
    match value
    case None => Ok(None)
    case Some(Null) => Ok(None)
    case Some(Str(s)) => Ok(Some(s))
    case Some(_) => Err(())
  }

  function Address(value: Option<Json>): Option<string>
  {
    match OptionalString(value)
    case Err(_) => None
    case Ok(None) => Some("")
    case Ok(Some(s)) => Some(Text.Trim(s))
  }

  function McpPath(value: Option<Json>): Option<string>
  {
    match OptionalString(value)
    case Ok(Some(s)) =>
      var t := Text.Trim(s);
      if t == "" then None else if t[0] == '/' then Some(t) else Some("/" + t)
    case _ => None
  }

  predicate Normalizes(fields: Fields)
  {
    && (forall i | 0 <= i < |ADDRESS_FIELDS| :: Address(Get(fields, ADDRESS_FIELDS[i])).Some?)
    && McpPath(Get(fields, "mcp_path")).Some?
  }

  /** What a tool service row stores for a field of its document. */
  function NormalField(fields: Fields, key: string): Option<Json>
    requires Normalizes(fields)
  {
    if key in ADDRESS_FIELDS then Some(Str(Address(Get(fields, key)).value))
    else if key == "mcp_path" then Some(Str(McpPath(Get(fields, key)).value))
    else Get(fields, key)
  }

  method NormalizeToolService(fields: Fields) returns (r: Option<Fields>)
    ensures r.Some? <==> Normalizes(fields)
    ensures r.Some? ==> forall key :: Get(r.value, key) == NormalField(fields, key)
  {
    var edited := fields;
    for i := 0 to |ADDRESS_FIELDS|
      invariant forall j | 0 <= j < i :: Address(Get(fields, ADDRESS_FIELDS[j])).Some?
      invariant forall key ::
          Get(edited, key) == if key in ADDRESS_FIELDS[..i] then Some(Str(Address(Get(fields, key)).value)) else Get(fields, key)
    {
      var field := ADDRESS_FIELDS[i];
      assert field !in ADDRESS_FIELDS[..i];
      var normal := Address(Get(edited, field));
      if normal.None? {
        return None;
      }
      edited := edited[field := Str(normal.value)];
      assert ADDRESS_FIELDS[..i + 1] == ADDRESS_FIELDS[..i] + [field];
    }
    assert ADDRESS_FIELDS[..|ADDRESS_FIELDS|] == ADDRESS_FIELDS;
    assert Get(edited, "mcp_path") == Get(fields, "mcp_path");
    var path := McpPath(Get(edited, "mcp_path"));
    if path.None? {
      return None;
    }
    return Some(edited["mcp_path" := Str(path.value)]);
  }

  /** What is stored of a tool service's addresses: the trimmed texts, empty when absent
      or null, and a path that starts with a slash and is otherwise the trimmed one. */
  lemma {:induction false} NormalizedFields(fields: Fields, key: string)
    requires Normalizes(fields)
    ensures key == "hostname" || key == "tailscale_ip" || key == "lan_ip" ==>
              NormalField(fields, key) ==
              Some(Str(if key in fields && fields[key].Str? then Text.Trim(fields[key].s) else ""))
    ensures && "mcp_path" in fields && fields["mcp_path"].Str? && NormalField(fields, "mcp_path").Some?
            && var stored := NormalField(fields, "mcp_path").value;
            && var path := Text.Trim(fields["mcp_path"].s);
            stored.Str? && path != "" && stored.s != "" && stored.s[0] == '/' && (stored.s == path || (path[0] != '/' && stored.s == "/" + path))
    ensures key !in {"hostname", "tailscale_ip", "lan_ip", "mcp_path"} ==> NormalField(fields, key) == Get(fields, key)
  {
    assert ADDRESS_FIELDS[0] == "hostname" && ADDRESS_FIELDS[1] == "tailscale_ip" && ADDRESS_FIELDS[2] == "lan_ip";
    assert key in ADDRESS_FIELDS <==> key == "hostname" || key == "tailscale_ip" || key == "lan_ip";
    if key in ADDRESS_FIELDS {
      var i :| 0 <= i < |ADDRESS_FIELDS| && ADDRESS_FIELDS[i] == key;
      assert Address(Get(fields, ADDRESS_FIELDS[i])).Some?;
    }
    assert "mcp_path" !in ADDRESS_FIELDS;
  }

  // ----- the two forms, field by field

  predicate Timestamped(value: Option<Json>)
  {
    value.Some? && value.value.Str? && Text.Trim(value.value.s) != ""
  }

  predicate Unrevoked(value: Option<Json>)
  {
    value.None? || value.value.Null? || value.value == Str("")
  }

  /** Fields of the document that an update leaves as they are in the row. */
  predicate Protected(c: Collection, fields: Fields, key: string)
  {
    || (key in Removed(c) && key !in Cleared(c))
    || (c.AgentBehavior? && key == "created_at")
    || (c.ChainKeyBinding? && key == "revoked_at" && Unrevoked(Get(fields, key)))
  }

  predicate Sanitizes(c: Collection, fields: Fields)
  {
    c.ToolServiceRegistry? ==> Normalizes(fields)
  }

  /** What the document asks for in a field. */
  function Wanted(c: Collection, fields: Fields, key: string): Option<Json>
    requires Sanitizes(c, fields)
  {
    if c.ToolServiceRegistry? then NormalField(fields, key) else Get(fields, key)
  }

  function CreateField(c: Collection, fields: Fields, now: string, key: string): Option<Json>
    requires Sanitizes(c, fields)
  {
    if key in Removed(c) then None
    else if c.AgentBehavior? && key == "created_at" && !Timestamped(Get(fields, key)) then Some(Str(now))
    else if Wanted(c, fields, key) == Some(EmptyList) then None
    else Wanted(c, fields, key)
  }

  function UpdateField(c: Collection, fields: Fields, key: string): Option<Json>
    requires Sanitizes(c, fields)
  {
    if key in Cleared(c) then Some(Null)
    else if Protected(c, fields, key) then None
    else if Wanted(c, fields, key) == Some(EmptyList) then Some(Null)
    else Wanted(c, fields, key)
  }

  function Field(c: Collection, fields: Fields, forUpdate: bool, now: string, key: string): Option<Json>
    requires Sanitizes(c, fields)
  {
    if forUpdate then UpdateField(c, fields, key) else CreateField(c, fields, now, key)
  }

  ghost predicate IsForm(c: Collection, fields: Fields, forUpdate: bool, now: string, form: Fields)
  {
    Sanitizes(c, fields) && forall key :: Get(form, key) == Field(c, fields, forUpdate, now, key)
  }

  lemma {:induction false} FormIsUnique(c: Collection, fields: Fields, forUpdate: bool, now: string, a: Fields, b: Fields)
    requires IsForm(c, fields, forUpdate, now, a) && IsForm(c, fields, forUpdate, now, b)
    ensures a == b
  {
    forall key ensures key in a <==> key in b
      ensures key in a ==> a[key] == b[key]
    {
      assert Get(a, key) == Get(b, key);
    }
  }

  function Candidates(c: Collection, fields: Fields): set<string>
  {
    fields.Keys + (set key | key in Cleared(c)) + (set key | key in ADDRESS_FIELDS) + {"mcp_path", "created_at"}
  }

  /** The form as a value. */
  function FormOf(c: Collection, fields: Fields, forUpdate: bool, now: string): (form: Fields)
    requires Sanitizes(c, fields)
    ensures IsForm(c, fields, forUpdate, now, form)
  {
    map key | key in Candidates(c, fields) && Field(c, fields, forUpdate, now, key).Some? ::
      Field(c, fields, forUpdate, now, key).value
  }

  // ----- the loops

  method Remove(fields: Fields, names: seq<string>) returns (r: Fields)
    ensures forall key :: Get(r, key) == if key in names then None else Get(fields, key)
  {
    r := fields;
    for i := 0 to |names|
      invariant forall key :: Get(r, key) == if key in names[..i] then None else Get(fields, key)
    {
      r := r - {names[i]};
      assert names[..i + 1] == names[..i] + [names[i]];
    }
    assert names[..|names|] == names;
  }

  method InsertNulls(fields: Fields, names: seq<string>) returns (r: Fields)
    ensures forall key :: Get(r, key) == if key in names then Some(Null) else Get(fields, key)
  {
    r := fields;
    for i := 0 to |names|
      invariant forall key :: Get(r, key) == if key in names[..i] then Some(Null) else Get(fields, key)
    {
      r := r[names[i] := Null];
      assert names[..i + 1] == names[..i] + [names[i]];
    }
    assert names[..|names|] == names;
  }

  function WithoutEmptyList(value: Option<Json>, forUpdate: bool): Option<Json>
  {
    if value == Some(EmptyList) then (if forUpdate then Some(Null) else None) else value
  }

  method DropEmptyLists(fields: Fields, forUpdate: bool) returns (r: Fields)
    ensures forall key :: Get(r, key) == WithoutEmptyList(Get(fields, key), forUpdate)
  {
    r := fields;
    var todo := set key | key in fields && fields[key] == EmptyList;
    while todo != {}
      invariant forall key | key in todo :: Get(fields, key) == Some(EmptyList)
      invariant forall key ::
          Get(r, key) == if key in todo then Get(fields, key) else WithoutEmptyList(Get(fields, key), forUpdate)
      decreases |todo|
    {
      var field :| field in todo;
      r := if forUpdate then r[field := Null] else r - {field};
      todo := todo - {field};
    }
  }

  /** The collection's own edits, before empty lists are dealt with. */
  method Strip(c: Collection, fields: Fields, forUpdate: bool, now: string) returns (r: Option<Fields>)
    ensures r.Some? <==> Sanitizes(c, fields)
    ensures r.Some? ==>
              forall key :: WithoutEmptyList(Get(r.value, key), forUpdate) == Field(c, fields, forUpdate, now, key)
  {
    var edited := Remove(fields, Removed(c));
    if c.ToolServiceRegistry? {
      RemovedAreNotAddresses(fields, edited);
      var normal := NormalizeToolService(edited);
      if normal.None? {
        return None;
      }
      edited := normal.value;
    }
    if forUpdate {
      if c.AgentBehavior? {
        edited := edited - {"created_at"};
      } else if c.ChainKeyBinding? && Unrevoked(Get(edited, "revoked_at")) {
        edited := edited - {"revoked_at"};
      }
      edited := InsertNulls(edited, Cleared(c));
    } else if c.AgentBehavior? && !Timestamped(Get(edited, "created_at")) {
      edited := edited["created_at" := Str(now)];
    }
    return Some(edited);
  }

  lemma {:induction false} RemovedAreNotAddresses(fields: Fields, edited: Fields)
    requires forall key :: Get(edited, key) == if key in Removed(ToolServiceRegistry) then None else Get(fields, key)
    ensures Normalizes(edited) <==> Normalizes(fields)
    ensures Normalizes(fields) ==>
              forall key :: NormalField(edited, key) == if key in Removed(ToolServiceRegistry) then None else NormalField(fields, key)
  {
    forall i | 0 <= i < |ADDRESS_FIELDS| ensures Get(edited, ADDRESS_FIELDS[i]) == Get(fields, ADDRESS_FIELDS[i]) {
    }
    assert Get(edited, "mcp_path") == Get(fields, "mcp_path");
  }

  /** The form of a document that is written; a document that is not an object,
      or a tool service that cannot be normalized, is refused. */
  method SanitizeImportDocument(c: Collection, doc: Option<Fields>, forUpdate: bool, now: string)
    returns (r: Result<Fields, ()>)
    ensures r.Ok? <==> doc.Some? && Sanitizes(c, doc.value)
    ensures r.Ok? ==> IsForm(c, doc.value, forUpdate, now, r.value)
    ensures r.Ok? ==> r.value == FormOf(c, doc.value, forUpdate, now)
  {
    if doc.None? {
      return Err(());
    }
    var stripped := Strip(c, doc.value, forUpdate, now);
    if stripped.None? {
      return Err(());
    }
    var form := DropEmptyLists(stripped.value, forUpdate);
    FormIsUnique(c, doc.value, forUpdate, now, form, FormOf(c, doc.value, forUpdate, now));
    return Ok(form);
  }

  // ----- convergence

  /** Creating and then updating with one document is creating. */
  lemma {:induction false} CreateThenUpdate(c: Collection, fields: Fields, now: string, create: Fields, update: Fields, key: string)
    requires IsForm(c, fields, false, now, create) && IsForm(c, fields, true, now, update)
    ensures Read(create + update, key) == Read(create, key)
  {
    assert Get(create, key) == CreateField(c, fields, now, key);
    assert Get(update, key) == UpdateField(c, fields, key);
    ClearedAreRemoved(c, key);
  }

  lemma {:induction false} ClearedAreRemoved(c: Collection, key: string)
    ensures key in Cleared(c) ==> key in Removed(c)
  {
    assert "created_at" == ScheduleRuntime[5] == TriggerRuntime[5] && "updated_at" == ScheduleRuntime[6] == TriggerRuntime[6];
  }

  /** What an update does to every field of every prior row: runtime stamps are
      cleared, protected fields and fields not carried keep the prior value, and
      every other carried field becomes the document's, where an empty list or
      null leaves nothing of the prior value. */
  lemma {:induction false} UpdateConverges(c: Collection, fields: Fields, now: string, update: Fields, prior: Fields, key: string)
    requires IsForm(c, fields, true, now, update)
    ensures var wanted := Wanted(c, fields, key);
            Read(prior + update, key) ==
              if key in Cleared(c) then None
              else if Protected(c, fields, key) || wanted == None then Read(prior, key)
              else if wanted == Some(Null) || wanted == Some(EmptyList) then None
              else wanted
  {
    assert Get(update, key) == UpdateField(c, fields, key);
  }

  /** The fields that belong to the runtime, collection by collection. */
  function RuntimeOwned(c: Collection): set<string>
  {
    match c
    case InferenceBackend => {"last_probe"}
    case Task => {"created_at", "updated_at"}
    case ProjectionAcpBinding => {"created_at", "updated_at"}
    case ToolServiceRegistry => {"tools", "version", "updated_at", "status"}
    case Schedule =>
      {"next_run_at", "last_attempt_at", "last_status", "last_error", "fire_count", "created_at", "updated_at"}
    case EventTrigger =>
      {"last_attempt_at", "last_fired_source_doc_id", "last_status", "last_error", "fire_count", "created_at", "updated_at"}
    case _ => {}
  }

  /** Those of them that an update resets. */
  function RuntimeReset(c: Collection): set<string>
  {
    match c
    case InferenceBackend => {"last_probe"}
    case ToolServiceRegistry => {"updated_at"}
    case Task => {"created_at", "updated_at"}
    case ProjectionAcpBinding => {"created_at", "updated_at"}
    case Schedule => {"created_at", "updated_at"}
    case EventTrigger => {"created_at", "updated_at"}
    case _ => {}
  }

  lemma {:induction false} InSeven<T>(x: T, a: T, b: T, c: T, d: T, e: T, f: T, g: T)
    ensures x in [a, b, c, d, e, f, g] <==> x == a || x == b || x == c || x == d || x == e || x == f || x == g
  {
    var s := [a, b, c, d, e, f, g];
    assert s[0] in s && s[1] in s && s[2] in s && s[3] in s && s[4] in s && s[5] in s && s[6] in s;
  }

  lemma {:induction false} ListsAreSets(c: Collection, key: string)
    ensures key in Removed(c) <==> key in RuntimeOwned(c)
    ensures key in Cleared(c) <==> key in RuntimeReset(c)
  {
    match c
    case Schedule =>
      InSeven(key, "next_run_at", "last_attempt_at", "last_status", "last_error", "fire_count", "created_at", "updated_at");
    case EventTrigger =>
      InSeven(key, "last_attempt_at", "last_fired_source_doc_id", "last_status", "last_error", "fire_count", "created_at",
              "updated_at");
    case _ =>
  }

  /** What belongs to the runtime is never imported, and nothing else is held back:
      neither form takes a runtime field from the document, an update resets some of
      them, and both forms carry every other field that holds something, except that
      an update does not touch a behavior's creation time or end a revocation. */
  lemma {:induction false} OnlyRuntimeFieldsStayOut(c: Collection, fields: Fields, now: string, create: Fields, update: Fields, key: string)
    requires IsForm(c, fields, false, now, create) && IsForm(c, fields, true, now, update)
    ensures key in RuntimeOwned(c) ==> key !in create
    ensures key in RuntimeOwned(c) ==> if key in RuntimeReset(c) then Get(update, key) == Some(Null) else key !in update
    ensures c == AgentBehavior && key == "created_at" ==>
              && key !in update
              && Get(create, key) == if Timestamped(Get(fields, key)) then Get(fields, key) else Some(Str(now))
    ensures var held := Wanted(c, fields, key);
            key !in RuntimeOwned(c) && !(c == AgentBehavior && key == "created_at") && held.Some? && held != Some(Null) && held != Some(EmptyList) ==>
              && Get(create, key) == held
              && (!(c == ChainKeyBinding && key == "revoked_at" && held == Some(Str(""))) ==> Get(update, key) == held)
  {
    ListsAreSets(c, key);
    assert Get(create, key) == Field(c, fields, false, now, key) && Get(update, key) == Field(c, fields, true, now, key);
    hide IsForm, Removed, Cleared, RuntimeOwned, RuntimeReset, Wanted;
    ClearedAreRemoved(c, key);
  }

  // ----- revocation

  /** A binding the runtime refuses to use. */
  predicate Revoked(row: Fields)
  {
    Timestamped(Get(row, "revoked_at"))
  }

  /** Update documents a revocation survives. */
  predicate Harmless(fields: Fields)
  {
    Unrevoked(Get(fields, "revoked_at")) || Timestamped(Get(fields, "revoked_at"))
  }

  /** The rows a binding goes through under a sequence of updates. */
  ghost predicate IsHistory(rows: seq<Fields>, docs: seq<Fields>, updates: seq<Fields>, now: string)
  {
    && |rows| == |docs| + 1 && |updates| == |docs|
    && forall i | 0 <= i < |docs| ::
         IsForm(ChainKeyBinding, docs[i], true, now, updates[i]) && rows[i + 1] == rows[i] + updates[i]
  }

  lemma {:induction false} UpdateRevokes(fields: Fields, now: string, update: Fields, prior: Fields)
    requires IsForm(ChainKeyBinding, fields, true, now, update) && Revoked(prior)
    ensures Revoked(prior + update) <==> Harmless(fields)
  {
    var key := "revoked_at";
    assert Get(update, key) == UpdateField(ChainKeyBinding, fields, key);
  }

  lemma {:induction false} HistoryStep(rows: seq<Fields>, docs: seq<Fields>, updates: seq<Fields>, now: string, i: nat)
    requires IsHistory(rows, docs, updates, now) && i < |docs| && Revoked(rows[i])
    ensures Revoked(rows[i + 1]) <==> Harmless(docs[i])
  {
    hide IsForm, Revoked, Harmless;
    UpdateRevokes(docs[i], now, updates[i], rows[i]);
  }

  lemma {:induction false} StaysRevoked(rows: seq<Fields>, docs: seq<Fields>, updates: seq<Fields>, now: string, n: nat)
    requires IsHistory(rows, docs, updates, now) && Revoked(rows[0]) && n < |rows|
    requires forall i | 0 <= i < |docs| :: Harmless(docs[i])
    ensures Revoked(rows[n])
  {
    hide Revoked, Harmless;
    if n > 0 {
      StaysRevoked(rows, docs, updates, now, n - 1);
      HistoryStep(rows, docs, updates, now, n - 1);
    }
  }

  /** A revoked binding stays revoked through a sequence of updates exactly when
      every document is harmless: it carries no revocation, or a real one. */
  lemma {:induction false} RevocationStands(rows: seq<Fields>, docs: seq<Fields>, updates: seq<Fields>, now: string)
    requires IsHistory(rows, docs, updates, now) && Revoked(rows[0])
    ensures (forall i | 0 <= i < |rows| :: Revoked(rows[i])) <==> (forall i | 0 <= i < |docs| :: Harmless(docs[i]))
  {
    assert |rows| == |docs| + 1;
    hide IsHistory, Harmless, Revoked;
    if forall i | 0 <= i < |docs| :: Harmless(docs[i]) {
      forall i | 0 <= i < |rows| ensures Revoked(rows[i]) {
        StaysRevoked(rows, docs, updates, now, i);
      }
    }
    if forall i | 0 <= i < |rows| :: Revoked(rows[i]) {
      forall i | 0 <= i < |docs| ensures Harmless(docs[i]) {
        HistoryStep(rows, docs, updates, now, i);
      }
    }
  }

  predicate StringOrNull(value: Option<Json>)
  {
    value.None? || value.value.Null? || value.value.Str?
  }

  predicate HasTombstone(row: Fields)
  {
    "revoked_at" in row && row["revoked_at"].Str? && row["revoked_at"].s != ""
  }

  /** Documents whose revocation is a text or null never clear the field. */
  lemma {:induction false} TombstoneIsNeverCleared(rows: seq<Fields>, docs: seq<Fields>, updates: seq<Fields>, now: string, n: nat)
    requires IsHistory(rows, docs, updates, now) && HasTombstone(rows[0]) && n < |rows|
    requires forall i | 0 <= i < |docs| :: StringOrNull(Get(docs[i], "revoked_at"))
    ensures HasTombstone(rows[n])
  {
    if n > 0 {
      var m := n - 1;
      TombstoneIsNeverCleared(rows, docs, updates, now, m);
      assert IsForm(ChainKeyBinding, docs[m], true, now, updates[m]) && rows[m + 1] == rows[m] + updates[m];
      assert Get(updates[m], "revoked_at") == UpdateField(ChainKeyBinding, docs[m], "revoked_at");
    }
  }

  /** Yet a blank text revives a revoked binding: it is not the empty text, so it
      is written, and the runtime trims it before deciding. */
  lemma {:induction false} BlankRevives(now: string)
    ensures var prior := map["revoked_at" := Str("2026-08-28")];
            var doc := map["revoked_at" := Str(" ")];
            Revoked(prior) && IsForm(ChainKeyBinding, doc, true, now, doc) && !Revoked(prior + doc)
  {
    var t := "2026-08-28";
    assert Text.TrimStart(t) == t && Text.TrimEnd(t) == t;
    assert Text.TrimStart(" ") == Text.TrimStart("");
  }
}
