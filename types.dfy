/** The batch's data model (`FileKindEnum`, `FileMetaSchema`,
    `FileItemSchema`, `SettingsSchema`): datatypes for the values, a validity
    predicate for the schema's constraints, and the schema's parser with its
    defaults, stated over a JSON-like input value. */
module Types {
  import opened Base

  datatype Status = Queued | Ready | Error

  /** The naming fields of an item. A field the input leaves out is `""`. */
  datatype FileMeta = FileMeta(first: string, last: string, docType: string, side: string, dateISO: string)

  /** An item of the batch: the schema's fields, the file it owns, and the
      fields packing fills in afterwards. */
  datatype FileItem = FileItem(
    id: string,
    name: string,
    kind: FileKind,
    originalBytes: int,
    estBytes: Option<int>,
    status: Status,
    meta: FileMeta,
    file: File,
    finalBytes: Option<int>,
    serverRecommended: Option<bool>,
    note: Option<string>)

  /** The schema's constraints: `originalBytes` non-negative, `estBytes`
      null or non-negative. */
  predicate ValidItem(it: FileItem)
  {
    it.originalBytes >= 0 && (it.estBytes.Some? ==> it.estBytes.value >= 0)
  }

  datatype Settings = Settings(template: string)

  const DefaultTemplate: string := "{{Last}}_{{First}}_{{DocType}}_{{Side}}_{{DateISO}}.pdf"

  // ---------------------------------------------------------------------
  // Parsing untyped input against the schemas

  /** An untyped input value; a key missing from an object is `undefined`. */
  datatype Value = Str(s: string) | Num(n: int) | Bool(b: bool) | Null | Obj(fields: map<string, Value>)

  /** `z.enum(['pdf', 'image'])`. */
  function ParseKind(v: Value): (r: Option<FileKind>)
    ensures r == Some(Pdf) <==> v == Str("pdf")
    ensures r == Some(Image) <==> v == Str("image")
  {
    if v == Str("pdf") then Some(Pdf) else if v == Str("image") then Some(Image) else None
  }

  /** `z.enum(['queued', 'ready', 'error']).default('queued')` of an optional field. */
  function ParseStatus(v: Option<Value>): Option<Status>
  {
    match v
    case None => Some(Queued)
    case Some(Str(s)) =>
      if s == "queued" then Some(Queued) else if s == "ready" then Some(Ready)
      else if s == "error" then Some(Error) else None
    case Some(_) => None
  }

  /** `z.string().default('')` of an optional field. */
  function ParseDefaultString(v: Option<Value>): Option<string>
  {
    match v
    case None => Some("")
    case Some(Str(s)) => Some(s)
    case Some(_) => None
  }

  function Field(o: map<string, Value>, k: string): Option<Value>
  {
    if k in o then Some(o[k]) else None
  }

  /** The key is absent, or holds a string. */
  predicate StringOrAbsent(o: map<string, Value>, k: string) { k !in o || o[k].Str? }

  /** The value of an optional string field, `""` when absent. */
  function StringOrEmpty(o: map<string, Value>, k: string): string
    requires StringOrAbsent(o, k)
  {
    if k in o then o[k].s else ""
  }

  /** `FileMetaSchema.parse`: every field a string, absent fields `""`. */
  function ParseMeta(v: Value): (r: Option<FileMeta>)
    ensures r.Some? <==>
      v.Obj? && StringOrAbsent(v.fields, "First") && StringOrAbsent(v.fields, "Last")
      && StringOrAbsent(v.fields, "DocType") && StringOrAbsent(v.fields, "Side")
      && StringOrAbsent(v.fields, "DateISO")
    ensures r.Some? ==>
      && r.value.first == StringOrEmpty(v.fields, "First")
      && r.value.last == StringOrEmpty(v.fields, "Last")
      && r.value.docType == StringOrEmpty(v.fields, "DocType")
      && r.value.side == StringOrEmpty(v.fields, "Side")
      && r.value.dateISO == StringOrEmpty(v.fields, "DateISO")
    ensures v.Obj? && (forall k :: k in v.fields ==> v.fields[k].Str?) ==> r.Some?
  {
    match v
    case Obj(o) =>
      var first := ParseDefaultString(Field(o, "First"));
      var last := ParseDefaultString(Field(o, "Last"));
      var docType := ParseDefaultString(Field(o, "DocType"));
      var side := ParseDefaultString(Field(o, "Side"));
      var date := ParseDefaultString(Field(o, "DateISO"));
      if first.Some? && last.Some? && docType.Some? && side.Some? && date.Some? then
        Some(FileMeta(first.value, last.value, docType.value, side.value, date.value))
      else None
    case _ => None
  }

  /** `FileItemSchema.parse` for an item owning `file`: required `id`, `name`,
      `kind`, `originalBytes >= 0`, `estBytes` null or `>= 0`, `meta`; `status`
      defaults to queued. */
  function ParseItem(v: Value, file: File): (r: Option<FileItem>)
    ensures r.Some? ==> ValidItem(r.value) && r.value.file == file
    ensures r.Some? && v.Obj? && "status" !in v.fields ==> r.value.status == Queued
  {
    match v
    case Obj(o) =>
      if "id" in o && o["id"].Str? && "name" in o && o["name"].Str?
         && "kind" in o && ParseKind(o["kind"]).Some?
         && "originalBytes" in o && o["originalBytes"].Num? && o["originalBytes"].n >= 0
         && "estBytes" in o && (o["estBytes"] == Null || (o["estBytes"].Num? && o["estBytes"].n >= 0))
         && ParseStatus(Field(o, "status")).Some?
         && "meta" in o && ParseMeta(o["meta"]).Some?
      then
        Some(FileItem(o["id"].s, o["name"].s, ParseKind(o["kind"]).value, o["originalBytes"].n,
                      if o["estBytes"] == Null then None else Some(o["estBytes"].n),
                      ParseStatus(Field(o, "status")).value, ParseMeta(o["meta"]).value,
                      file, None, None, None))
      else None
    case _ => None
  }

  /** `TemplateSchema.parse`: a required string `value`. */
  function ParseTemplate(v: Value): (r: Option<string>)
    ensures r.Some? <==> v.Obj? && "value" in v.fields && v.fields["value"].Str?
    ensures r.Some? ==> r.value == v.fields["value"].s
  {
    match v
    case Obj(o) => if "value" in o && o["value"].Str? then Some(o["value"].s) else None
    case _ => None
  }

  /** `SettingsSchema.parse`: the template defaults to `DefaultTemplate`. */
  function ParseSettings(v: Value): (r: Option<Settings>)
    ensures r.Some? <==> v.Obj? && ("template" !in v.fields || v.fields["template"].Str?)
    ensures v.Obj? && "template" !in v.fields ==> r == Some(Settings(DefaultTemplate))
    ensures r.Some? && "template" in v.fields ==> r.value.template == v.fields["template"].s
  {
    match v
    case Obj(o) =>
      if "template" !in o then Some(Settings(DefaultTemplate))
      else if o["template"].Str? then Some(Settings(o["template"].s))
      else None
    case _ => None
  }

  // ---------------------------------------------------------------------
  // Serialising back, and the round trip

  function KindValue(k: FileKind): Value { if k == Pdf then Str("pdf") else Str("image") }

  function StatusValue(s: Status): Value
  {
    match s
    case Queued => Str("queued")
    case Ready => Str("ready")
    case Error => Str("error")
  }

  function MetaValue(m: FileMeta): Value
  {
    Obj(map["First" := Str(m.first), "Last" := Str(m.last), "DocType" := Str(m.docType),
            "Side" := Str(m.side), "DateISO" := Str(m.dateISO)])
  }

  function ItemValue(it: FileItem): Value
  {
    Obj(map["id" := Str(it.id), "name" := Str(it.name), "kind" := KindValue(it.kind),
            "originalBytes" := Num(it.originalBytes),
            "estBytes" := (if it.estBytes.None? then Null else Num(it.estBytes.value)),
            "status" := StatusValue(it.status), "meta" := MetaValue(it.meta)])
  }

  /** The serialised fields of an item parse back one by one. */
  lemma ItemFieldsParse(it: FileItem)
    ensures var o := ItemValue(it).fields;
      && o["id"] == Str(it.id) && o["name"] == Str(it.name)
      && ParseKind(o["kind"]) == Some(it.kind)
      && o["originalBytes"] == Num(it.originalBytes)
      && o["estBytes"] == (if it.estBytes.None? then Null else Num(it.estBytes.value))
      && ParseStatus(Field(o, "status")) == Some(it.status)
      && ParseMeta(o["meta"]) == Some(it.meta)
  {
    MetaRoundTrip(it.meta);
  }

  /** Serialised naming fields parse back to themselves. */
  lemma MetaRoundTrip(meta: FileMeta)
    ensures ParseMeta(MetaValue(meta)) == Some(meta)
  {
    var m := MetaValue(meta).fields;
    assert Field(m, "First") == Some(Str(meta.first));
    assert Field(m, "Last") == Some(Str(meta.last));
    assert Field(m, "DocType") == Some(Str(meta.docType));
    assert Field(m, "Side") == Some(Str(meta.side));
    assert Field(m, "DateISO") == Some(Str(meta.dateISO));
  }

  /** A valid item that packing has not touched survives serialising and
      parsing unchanged; an invalid one is refused. */
  lemma ParseItemRoundTrip(it: FileItem)
    requires it.finalBytes.None? && it.serverRecommended.None? && it.note.None?
    ensures ValidItem(it) ==> ParseItem(ItemValue(it), it.file) == Some(it)
    ensures !ValidItem(it) ==> ParseItem(ItemValue(it), it.file) == None
  {
    ItemFieldsParse(it);
    var o := ItemValue(it).fields;
    assert "id" in o && "name" in o && "kind" in o && "originalBytes" in o && "estBytes" in o && "meta" in o;
  }
}
