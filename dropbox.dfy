/** The intake of `src/components/DropBox.tsx`: which dropped or browsed
    files are admitted, when `onFiles` is called, and how pasted clipboard
    items are collected. `onFiles` is modelled by what it would be called
    with: `None` when it is not called. */
module DropBox {
  import opened Base
  import opened Strings
  import Seqs

  // ---------------------------------------------------------------------
  // handleFiles

  /** The extensions `/\.(pdf|png|jpe?g|webp|gif|bmp|tiff?)$/i` accepts. */
  const Extensions: seq<string> := ["pdf", "png", "jpg", "jpeg", "webp", "gif", "bmp", "tif", "tiff"]

  /** The name ends, in any ASCII case, in a dot and one of the extensions. */
  predicate HasAcceptedExtension(name: string)
  {
    exists k | 0 <= k < |Extensions| :: EndsWithCI(name, "." + Extensions[k])
  }

  /** The MIME type starts with `application/pdf` or `image/`. */
  predicate HasAcceptedType(mime: string)
  {
    StartsWith(mime, "application/pdf") || StartsWith(mime, "image/")
  }

  /** The filter of `handleFiles`. */
  predicate Admit(f: File)
  {
    HasAcceptedType(f.mime) || HasAcceptedExtension(f.name)
  }

  /** `handleFiles(files)`: the admitted files, in order, when there are any. */
  function HandleFiles(files: seq<File>): (call: Option<seq<File>>)
  {
    var filtered := Seqs.Filter(files, Admit);
    if |filtered| > 0 then Some(filtered) else None
  }

  /** `onFiles` receives exactly the admitted files, in their order, and is
      called exactly when at least one file is admitted. */
  lemma HandleFilesSpec(files: seq<File>)
    ensures HandleFiles(files).None? <==> forall i :: 0 <= i < |files| ==> !Admit(files[i])
    ensures HandleFiles(files).Some? ==>
      (forall f :: f in HandleFiles(files).value <==> f in files && Admit(f))
      && Seqs.IsSubsequence(HandleFiles(files).value, files)
    ensures HandleFiles(files).Some? ==>
      forall f :: multiset(HandleFiles(files).value)[f] == if Admit(f) then multiset(files)[f] else 0
  {
    Seqs.FilterSpec(files, Admit);
    Seqs.FilterMultiset(files, Admit);
    Seqs.FilterIsSubsequence(files, Admit);
    var kept := Seqs.Filter(files, Admit);
    if kept != [] {
      assert kept[0] in kept;
      var i :| 0 <= i < |files| && files[i] == kept[0];
      assert Admit(files[i]);
    }
    if exists i :: 0 <= i < |files| && Admit(files[i]) {
      var i :| 0 <= i < |files| && Admit(files[i]);
      assert files[i] in kept;
    }
  }

  /** A PDF or image by type is admitted whatever its name; a file with an
      accepted extension is admitted whatever its type. */
  lemma AdmitByTypeOrName(f: File, k: nat)
    requires k < |Extensions|
    ensures StartsWith(f.mime, "image/") ==> Admit(f)
    ensures EndsWithCI(f.name, "." + Extensions[k]) ==> Admit(f)
  {
  }

  /** `onDrop`: ignored when disabled or when nothing was dropped. */
  function OnDrop(disabled: bool, dropped: seq<File>): (call: Option<seq<File>>)
    ensures disabled || dropped == [] ==> call.None?
    ensures !disabled ==> call == HandleFiles(dropped)
  {
    if disabled then None
    else if |dropped| > 0 then HandleFiles(dropped)
    else None
  }

  // ---------------------------------------------------------------------
  // onPaste

  /** The files of the clipboard items that have one, in order. */
  function Present(items: seq<Option<File>>): (fs: seq<File>)
    ensures |fs| <= |items|
  {
    if items == [] then []
    else Present(items[..|items| - 1]) + (if items[|items| - 1].Some? then [items[|items| - 1].value] else [])
  }

  /** Every file of the clipboard is passed on, and nothing else. */
  lemma {:induction false} PresentSpec(items: seq<Option<File>>)
    ensures forall f :: f in Present(items) <==> Some(f) in items
    ensures |Present(items)| == 0 <==> forall i :: 0 <= i < |items| ==> items[i].None?
  {
    if items != [] {
      var init := items[..|items| - 1];
      PresentSpec(init);
      assert items == init + [items[|items| - 1]];
      forall f ensures Some(f) in items <==> Some(f) in init || items[|items| - 1] == Some(f) {
      }
    }
  }

  /** `onPaste(e)`. `clipboard` is `e.clipboardData`: `None` when absent,
      otherwise its items, each with a file or without. */
  method OnPaste(disabled: bool, clipboard: Option<seq<Option<File>>>) returns (call: Option<seq<File>>)
    ensures disabled ==> call.None?
    ensures !disabled && clipboard.None? ==> call.None?
    ensures !disabled && clipboard.Some? ==>
      call == if Present(clipboard.value) == [] then None else Some(Present(clipboard.value))
  {
    if disabled {
      return None;
    }
    var files: seq<File> := [];
    if clipboard.Some? {
      var items := clipboard.value;
      var i := 0;
      while i < |items|
        invariant 0 <= i <= |items|
        invariant files == Present(items[..i])
      {
        var f := items[i];
        if f.Some? {
          files := files + [f.value];
        }
        assert items[..i + 1][..i] == items[..i];
        i := i + 1;
      }
      assert items[..|items|] == items;
    }
    if |files| > 0 {
      call := Some(files);
    } else {
      call := None;
    }
  }

  /** Pasted files are not filtered: a file of any type reaches `onFiles`. */
  lemma PasteIsUnfiltered(f: File)
    ensures Present([Some(f)]) == [f]
    ensures HandleFiles([f]).Some? <==> Admit(f)
  {
    assert [Some(f)][..0] == [];
    HandleFilesSpec([f]);
  }
}
