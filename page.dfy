/** The page state of `src/app/page.tsx`: the reducer that every user
    action goes through, and the merge of a pack run's updates back into
    the items. The reducer returns a fresh state; the identifiers
    `crypto.randomUUID()` draws and the date `isoDate()` reads are
    parameters. */
module Page {
  import opened Base
  import opened Types
  import Seqs
  import Format
  import Pack

  // ---------------------------------------------------------------------
  // State and actions

  datatype State = State(
    items: seq<FileItem>,
    selectedId: Option<string>,
    template: string,
    processing: bool,
    progress: int,
    zipBlob: Option<Blob>,
    smartOcr: bool,
    redact: bool)

  /** `Partial<FileItem['meta']>`: a key that is present overwrites. */
  datatype MetaPatch = MetaPatch(
    first: Option<string>, last: Option<string>, docType: Option<string>, side: Option<string>, dateISO: Option<string>)

  datatype Action =
    | AddFiles(files: seq<File>)
    | RemoveFile(id: string)
    | Select(id: string)
    | SetTemplate(template: string)
    | SetProcessing(processing: bool)
    | SetProgress(progress: int)
    | SetZip(blob: Option<Blob>)
    | SetItems(items: seq<FileItem>)
    | SetSmartOcr(smartOcr: bool)
    | UpdateMeta(id: string, patch: MetaPatch)
    | SetRedact(redact: bool)
    | Unrecognised(name: string)

  const InitialState := State([], None, DefaultTemplate, false, 0, None, false, false)

  // ---------------------------------------------------------------------
  // The pieces of the reducer

  /** The item a newly added file becomes: queued, estimated, with empty
      naming fields, side `Front` and today's date. */
  function NewItem(f: File, id: string, today: string): (it: FileItem)
    ensures it.id == id && it.file == f && it.name == f.name && it.originalBytes == f.Size()
    ensures it.kind == Format.GuessKind(f) && it.status == Queued
    ensures it.meta == FileMeta("", "", "", "Front", today)
    ensures it.estBytes == Some(Format.EstimateCompressed(f.Size(), it.kind))
    ensures it.finalBytes.None? && it.serverRecommended.None? && it.note.None?
    ensures ValidItem(it)
  {
    var kind := Format.GuessKind(f);
    var est := Format.EstimateCompressed(f.Size(), kind);
    assert est >= 0 by {
      if kind == Pdf { Format.EstimatePdf(f.Size()); } else { Format.EstimateImage(f.Size()); }
    }
    FileItem(id, f.name, kind, f.Size(), Some(est), Queued, FileMeta("", "", "", "Front", today), f, None, None, None)
  }

  /** The items `files.map(...)` builds; `uuid(j)` is the identifier drawn
      for the `j`-th file. */
  function NewItems(files: seq<File>, uuid: nat -> string, today: string): (its: seq<FileItem>)
    ensures |its| == |files|
    ensures forall j :: 0 <= j < |files| ==> its[j] == NewItem(files[j], uuid(j), today)
  {
    seq(|files|, j requires 0 <= j < |files| => NewItem(files[j], uuid(j), today))
  }

  /** `{ ...meta, ...patch }`. */
  function ApplyPatch(m: FileMeta, p: MetaPatch): FileMeta
  {
    FileMeta(
      if p.first.Some? then p.first.value else m.first,
      if p.last.Some? then p.last.value else m.last,
      if p.docType.Some? then p.docType.value else m.docType,
      if p.side.Some? then p.side.value else m.side,
      if p.dateISO.Some? then p.dateISO.value else m.dateISO)
  }

  /** Patching twice with the same keys is patching once. */
  lemma ApplyPatchIdempotent(m: FileMeta, p: MetaPatch)
    ensures ApplyPatch(ApplyPatch(m, p), p) == ApplyPatch(m, p)
  {
  }

  /** The items with a patched meta for the one(s) with that id. */
  function PatchItems(items: seq<FileItem>, id: string, p: MetaPatch): (r: seq<FileItem>)
    ensures |r| == |items|
    ensures forall j :: 0 <= j < |items| ==> r[j] == if items[j].id == id then items[j].(meta := ApplyPatch(items[j].meta, p)) else items[j]
  {
    seq(|items|, j requires 0 <= j < |items| =>
      if items[j].id == id then items[j].(meta := ApplyPatch(items[j].meta, p)) else items[j])
  }

  predicate NotId(id: string, it: FileItem) { it.id != id }

  /** `reducer(state, action)`. */
  function Reduce(s: State, a: Action, uuid: nat -> string, today: string): (r: State)
  {
    match a
    case AddFiles(files) => s.(items := s.items + NewItems(files, uuid, today))
    case RemoveFile(id) =>
      s.(items := Seqs.Filter(s.items, it => NotId(id, it)),
         selectedId := if s.selectedId == Some(id) then None else s.selectedId)
    case Select(id) => s.(selectedId := Some(id))
    case SetTemplate(v) => s.(template := v)
    case SetProcessing(v) => s.(processing := v)
    case SetProgress(v) => s.(progress := v)
    case SetZip(b) => s.(zipBlob := b)
    case SetItems(items) => s.(items := items)
    case SetSmartOcr(v) => s.(smartOcr := v)
    case UpdateMeta(id, p) => s.(items := PatchItems(s.items, id, p))
    case SetRedact(v) => s.(redact := v)
    case Unrecognised(_) => s
  }

  // ---------------------------------------------------------------------
  // Properties of the reducer

  /** Added files come after the existing items, in file order, each as a
      fresh queued item; nothing else changes. */
  lemma AddFilesAppends(s: State, files: seq<File>, uuid: nat -> string, today: string)
    ensures var r := Reduce(s, AddFiles(files), uuid, today);
      && |r.items| == |s.items| + |files|
      && r.items[..|s.items|] == s.items
      && (forall j :: 0 <= j < |files| ==> r.items[|s.items| + j] == NewItem(files[j], uuid(j), today))
      && r.(items := s.items) == s
  {
    var r := Reduce(s, AddFiles(files), uuid, today);
    assert r.items[..|s.items|] == s.items;
  }

  /** Removing drops exactly the items with that id, keeps the others in
      order, and clears the selection exactly when it was that id. */
  lemma RemoveFileSpec(s: State, id: string, uuid: nat -> string, today: string)
    ensures var r := Reduce(s, RemoveFile(id), uuid, today);
      && (forall it :: it in r.items <==> it in s.items && it.id != id)
      && Seqs.IsSubsequence(r.items, s.items)
      && (forall it :: multiset(r.items)[it] == if it.id != id then multiset(s.items)[it] else 0)
      && (r.selectedId.None? <==> s.selectedId.None? || s.selectedId == Some(id))
      && (s.selectedId != Some(id) ==> r.selectedId == s.selectedId)
      && r.(items := s.items, selectedId := s.selectedId) == s
  {
    Seqs.FilterSpec(s.items, it => NotId(id, it));
    Seqs.FilterIsSubsequence(s.items, it => NotId(id, it));
    Seqs.FilterMultiset(s.items, it => NotId(id, it));
  }

  /** `update_meta` merges the patch into every item with that id and
      leaves every other item, and every other field, as it was. */
  lemma UpdateMetaSpec(s: State, id: string, p: MetaPatch, uuid: nat -> string, today: string)
    ensures var r := Reduce(s, UpdateMeta(id, p), uuid, today);
      && |r.items| == |s.items|
      && (forall j :: 0 <= j < |s.items| && s.items[j].id != id ==> r.items[j] == s.items[j])
      && (forall j :: 0 <= j < |s.items| && s.items[j].id == id ==>
            r.items[j].(meta := s.items[j].meta) == s.items[j]
            && r.items[j].meta == ApplyPatch(s.items[j].meta, p))
      && r.(items := s.items) == s
  {
  }

  /** Every action but `add_files` can be repeated without further effect. */
  lemma RepeatIsHarmless(s: State, a: Action, uuid: nat -> string, today: string)
    requires !a.AddFiles?
    ensures Reduce(Reduce(s, a, uuid, today), a, uuid, today) == Reduce(s, a, uuid, today)
  {
    match a
    case RemoveFile(id) => RemoveTwice(s.items, id);
    case UpdateMeta(id, p) => PatchTwice(s.items, id, p);
    case _ =>
  }

  lemma RemoveTwice(items: seq<FileItem>, id: string)
    ensures Seqs.Filter(Seqs.Filter(items, it => NotId(id, it)), it => NotId(id, it))
         == Seqs.Filter(items, it => NotId(id, it))
  {
    var once := Seqs.Filter(items, it => NotId(id, it));
    Seqs.FilterSpec(items, it => NotId(id, it));
    forall j | 0 <= j < |once| ensures NotId(id, once[j]) {
      assert once[j] in once;
    }
    Seqs.FilterKeepsAll(once, it => NotId(id, it));
  }

  lemma PatchTwice(items: seq<FileItem>, id: string, p: MetaPatch)
    ensures PatchItems(PatchItems(items, id, p), id, p) == PatchItems(items, id, p)
  {
    var once := PatchItems(items, id, p);
    forall j | 0 <= j < |once|
      ensures PatchItems(once, id, p)[j] == once[j]
    {
      ApplyPatchIdempotent(items[j].meta, p);
    }
  }

  /** Setters change their own field only, and an unrecognised action
      changes nothing. */
  lemma SettersFrame(s: State, a: Action, uuid: nat -> string, today: string)
    ensures a.Unrecognised? ==> Reduce(s, a, uuid, today) == s
    ensures !(a.AddFiles? || a.RemoveFile? || a.SetItems? || a.UpdateMeta?) ==> Reduce(s, a, uuid, today).items == s.items
    ensures a.SetProgress? ==> Reduce(s, a, uuid, today) == s.(progress := a.progress)
    ensures a.Select? ==> Reduce(s, a, uuid, today) == s.(selectedId := Some(a.id))
    ensures a.SetTemplate? ==> Reduce(s, a, uuid, today) == s.(template := a.template)
    ensures a.SetProcessing? ==> Reduce(s, a, uuid, today) == s.(processing := a.processing)
    ensures a.SetZip? ==> Reduce(s, a, uuid, today) == s.(zipBlob := a.blob)
    ensures a.SetItems? ==> Reduce(s, a, uuid, today) == s.(items := a.items)
    ensures a.SetSmartOcr? ==> Reduce(s, a, uuid, today) == s.(smartOcr := a.smartOcr)
    ensures a.SetRedact? ==> Reduce(s, a, uuid, today) == s.(redact := a.redact)
  {
  }

  // ---------------------------------------------------------------------
  // Merging a pack run's updates

  /** `updates.find((x) => x.id === id)`. */
  function FindUpdate(us: seq<Pack.Update>, id: string): (r: Option<Pack.Update>)
    ensures r.None? <==> forall k :: 0 <= k < |us| ==> us[k].id != id
    ensures r.Some? ==> r.value.id == id && r.value in us
  {
    if us == [] then None
    else if us[0].id == id then Some(us[0])
    else FindUpdate(us[1..], id)
  }

  /** The first update with the id is the one found. */
  lemma {:induction false} FindUpdateFirst(us: seq<Pack.Update>, id: string, k: nat)
    requires k < |us| && us[k].id == id
    requires forall j :: 0 <= j < k ==> us[j].id != id
    ensures FindUpdate(us, id) == Some(us[k])
  {
    if k > 0 {
      assert us[0].id != id;
      FindUpdateFirst(us[1..], id, k - 1);
    }
  }

  /** One item after the merge: ready, with the packed size, flag and note,
      when an update carries its id; unchanged otherwise. */
  function MergeItem(it: FileItem, us: seq<Pack.Update>): FileItem
  {
    match FindUpdate(us, it.id)
    case None => it
    case Some(u) =>
      it.(status := Ready, finalBytes := Some(u.finalBytes), serverRecommended := Some(u.serverRecommended), note := u.note)
  }

  /** `state.items.map(...)` after `packFiles`. */
  function MergeUpdates(items: seq<FileItem>, us: seq<Pack.Update>): (r: seq<FileItem>)
    ensures |r| == |items|
    ensures forall j :: 0 <= j < |items| ==> r[j] == MergeItem(items[j], us)
  {
    seq(|items|, j requires 0 <= j < |items| => MergeItem(items[j], us))
  }

  /** The merge keeps the order, ids, files, names and naming fields,
      readies every item an update names, and leaves the others alone. */
  lemma MergeSpec(items: seq<FileItem>, us: seq<Pack.Update>)
    ensures forall j :: 0 <= j < |items| ==>
      var m := MergeUpdates(items, us)[j];
      && m.id == items[j].id && m.file == items[j].file && m.name == items[j].name && m.meta == items[j].meta
      && ((forall k :: 0 <= k < |us| ==> us[k].id != items[j].id) ==> m == items[j])
      && ((exists k :: 0 <= k < |us| && us[k].id == items[j].id) ==> m.status == Ready && m.finalBytes.Some?)
  {
  }

  /** After a successful pack run every item is ready, and when ids are
      distinct each carries the size, flag and note of its own record. */
  lemma PackThenMerge(items: seq<FileItem>, recs: seq<Pack.Record>)
    requires |recs| == |items|
    ensures forall j :: 0 <= j < |items| ==> MergeUpdates(items, Pack.Updates(items, recs))[j].status == Ready
    ensures (forall j, k :: 0 <= j < k < |items| ==> items[j].id != items[k].id) ==>
      forall j :: 0 <= j < |items| ==>
        var m := MergeUpdates(items, Pack.Updates(items, recs))[j];
        m.finalBytes == Some(recs[j].finalBytes) && m.serverRecommended == Some(recs[j].serverRecommended)
        && m.note == recs[j].note
  {
    var us := Pack.Updates(items, recs);
    forall j | 0 <= j < |items|
      ensures MergeUpdates(items, us)[j].status == Ready
    {
      assert us[j].id == items[j].id;
    }
    if forall j, k :: 0 <= j < k < |items| ==> items[j].id != items[k].id {
      forall j | 0 <= j < |items|
        ensures var m := MergeUpdates(items, us)[j];
          m.finalBytes == Some(recs[j].finalBytes) && m.serverRecommended == Some(recs[j].serverRecommended)
          && m.note == recs[j].note
      {
        assert us[j].id == items[j].id;
        forall i | 0 <= i < j ensures us[i].id != items[j].id {
          assert us[i].id == items[i].id;
        }
        FindUpdateFirst(us, items[j].id, j);
      }
    }
  }
}
