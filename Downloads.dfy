/** The download side of components/BatchProcessor.tsx: the name a converted
    file is saved under, the selection of files for the ZIP archive, and
    `handleDownloadAll`, which fills the archive entry by entry. */
module Downloads {
  import opened Types
  import opened Strings
  import opened Batch

  /** `name.split('.').slice(0, -1).join('.')`: everything before the last
      dot; a name without a dot gives the empty string. */
  function BaseName(name: string): string {
    var parts := Split(name, '.');
    Join(parts[..|parts| - 1], ".")
  }

  /** The extension of the converted file. */
  function Extension(t: ConversionType): string {
    if t == PngToSvg then "svg" else "png"
  }

  /** `getDownloadFileName`: the same function in the list item and in the
      ZIP helper. */
  function DownloadFileName(item: ConversionFile): string {
    BaseName(item.file.name) + "-converted." + Extension(item.conversionType)
  }

  /** The base name is the part of the name before its last dot (earlier dots
      are kept), and empty when the name has no dot. */
  lemma BaseNameSpec(name: string)
    ensures '.' !in name ==> BaseName(name) == ""
    ensures '.' in name ==>
      var b := BaseName(name);
      |b| < |name| && name[..|b|] == b && name[|b|] == '.' && '.' !in name[|b| + 1..]
  {
    var parts := Split(name, '.');
    JoinSplit(name, '.');
    if '.' !in name {
      SplitWithout(name, '.');
    } else {
      SplitAtSeparator(name, '.');
      var init, last := parts[..|parts| - 1], parts[|parts| - 1];
      assert parts == init + [last];
      JoinSnoc(init, last, ".");
      var b := Join(init, ".");
      assert name == b + "." + last;
      assert name[|b| + 1..] == last;
    }
  }

  /** Every name ends in `-converted.svg` for PNG to SVG and in
      `-converted.png` otherwise, after the base name. */
  lemma DownloadFileNameSpec(item: ConversionFile)
    ensures var n := DownloadFileName(item);
      var suffix := if item.conversionType == PngToSvg then "-converted.svg" else "-converted.png";
      |n| >= |suffix| && n[|n| - |suffix|..] == suffix && n[..|n| - |suffix|] == BaseName(item.file.name)
  {
  }

  /** `a.b.png` is saved as `a.b-converted.svg`. */
  lemma DownloadFileNameKeepsEarlierDots(item: ConversionFile)
    requires item.file.name == "a.b.png" && item.conversionType == PngToSvg
    ensures DownloadFileName(item) == "a.b-converted.svg"
  {
    var name := item.file.name;
    var b := BaseName(name);
    assert b == "a.b" by {
      LastDotAt(name, 3);
    }
  }

  /** A name whose last dot is at position `k` has the first `k` characters
      as base name. */
  lemma LastDotAt(name: string, k: nat)
    requires k < |name| && name[k] == '.'
    requires forall j :: k < j < |name| ==> name[j] != '.'
    ensures BaseName(name) == name[..k]
  {
    assert name[k] in name;
    BaseNameSpec(name);
    var b := BaseName(name);
    forall j | |b| + 1 <= j < |name| ensures name[j] != '.' {
      assert name[j] == name[|b| + 1..][j - |b| - 1];
    }
  }

  /** A name without a dot is saved as just `-converted.<ext>`. */
  lemma DownloadFileNameWithoutDot(item: ConversionFile)
    requires '.' !in item.file.name
    ensures DownloadFileName(item) == "-converted." + Extension(item.conversionType)
  {
    BaseNameSpec(item.file.name);
  }

  /** `f.outputPreviewUrl` as JavaScript tests it: present and not empty. */
  predicate HasOutput(f: ConversionFile) {
    f.outputPreviewUrl.Some? && f.outputPreviewUrl.value != ""
  }

  /** `files.filter(f => f.status === CONVERTED && f.outputPreviewUrl)`. */
  function ZipSelection(files: seq<ConversionFile>): (r: seq<ConversionFile>)
    ensures |r| <= |WithStatus(files, Converted)|
    ensures forall i :: 0 <= i < |r| ==> r[i].status == Converted && HasOutput(r[i])
    decreases |files|
  {
    if |files| == 0 then []
    else if files[0].status == Converted && HasOutput(files[0]) then [files[0]] + ZipSelection(files[1..])
    else ZipSelection(files[1..])
  }

  /** The selection holds exactly the converted items with an output. */
  lemma {:induction false} ZipSelectionMembers(files: seq<ConversionFile>)
    ensures forall f :: f in ZipSelection(files) <==> f in files && f.status == Converted && HasOutput(f)
    decreases |files|
  {
    if |files| > 0 {
      ZipSelectionMembers(files[1..]);
      assert files == [files[0]] + files[1..];
    }
  }

  /** The selection keeps list order: it distributes over concatenation. */
  lemma {:induction false} ZipSelectionAppend(a: seq<ConversionFile>, b: seq<ConversionFile>)
    ensures ZipSelection(a + b) == ZipSelection(a) + ZipSelection(b)
    decreases |a|
  {
    if |a| == 0 {
      assert a + b == b;
    } else {
      assert (a + b)[1..] == a[1..] + b;
      ZipSelectionAppend(a[1..], b);
    }
  }

  /** The archive after adding the entries of `sel` in order: `zip.file`
      replaces an entry of the same name, so the last one wins. */
  function ZipEntries(sel: seq<ConversionFile>): map<string, string>
    requires forall i :: 0 <= i < |sel| ==> sel[i].outputPreviewUrl.Some?
    decreases |sel|
  {
    if |sel| == 0 then map[]
    else
      var last := sel[|sel| - 1];
      ZipEntries(sel[..|sel| - 1])[DownloadFileName(last) := last.outputPreviewUrl.value]
  }

  /** The archive has one entry per distinct download name of the selection. */
  lemma {:induction false} ZipEntriesNames(sel: seq<ConversionFile>)
    requires forall i :: 0 <= i < |sel| ==> sel[i].outputPreviewUrl.Some?
    ensures forall name :: name in ZipEntries(sel) <==> exists i :: 0 <= i < |sel| && DownloadFileName(sel[i]) == name
    decreases |sel|
  {
    if |sel| > 0 {
      var init := sel[..|sel| - 1];
      ZipEntriesNames(init);
      assert forall i :: 0 <= i < |init| ==> init[i] == sel[i];
    }
  }

  /** Each entry holds the output of the last selected item with that name. */
  lemma {:induction false} ZipEntriesLastWins(sel: seq<ConversionFile>, i: nat)
    requires forall k :: 0 <= k < |sel| ==> sel[k].outputPreviewUrl.Some?
    requires i < |sel|
    requires forall j :: i < j < |sel| ==> DownloadFileName(sel[j]) != DownloadFileName(sel[i])
    ensures DownloadFileName(sel[i]) in ZipEntries(sel)
    ensures ZipEntries(sel)[DownloadFileName(sel[i])] == sel[i].outputPreviewUrl.value
    decreases |sel|
  {
    if i < |sel| - 1 {
      var init := sel[..|sel| - 1];
      assert init[i] == sel[i];
      ZipEntriesLastWins(init, i);
    }
  }

  /** Every selected item's output could be fetched. */
  predicate AllFetched(sel: seq<ConversionFile>, fetchOk: string -> bool)
    requires forall i :: 0 <= i < |sel| ==> sel[i].outputPreviewUrl.Some?
  {
    forall i :: 0 <= i < |sel| ==> fetchOk(sel[i].outputPreviewUrl.value)
  }

  /** The download panel's own state: the `isZipping` flag, and the last
      archive handed to the user. */
  class ZipDownload {
    var isZipping: bool
    var saved: Option<map<string, string>>

    constructor()
      ensures !isZipping && saved == None
    {
      isZipping := false;
      saved := None;
    }

    /** `handleDownloadAll`. With nothing selected it returns at once;
        otherwise it raises `isZipping`, adds one entry per selected item in
        order, hands the archive to the user if every fetch and the
        archiving succeeded, and lowers `isZipping` on every path.
        `fetchOk` and `zipOk` stand for `fetch` and `generateAsync`. */
    method HandleDownloadAll(files: seq<ConversionFile>, fetchOk: string -> bool, zipOk: bool)
      modifies this
      ensures |ZipSelection(files)| == 0 ==> isZipping == old(isZipping) && saved == old(saved)
      ensures |ZipSelection(files)| > 0 ==> !isZipping
      ensures var sel := ZipSelection(files);
        |sel| > 0 ==> saved == if AllFetched(sel, fetchOk) && zipOk then Some(ZipEntries(sel)) else old(saved)
    {
      var sel := ZipSelection(files);
      if |sel| == 0 {
        return;
      }
      isZipping := true;
      var zip, fetched := AddEntries(sel, fetchOk);
      if fetched && zipOk {
        saved := Some(zip);
      }
      isZipping := false;
    }
  }

  /** The loop of `handleDownloadAll`: one archive entry per selected item,
      in order, until a fetch fails. */
  method AddEntries(sel: seq<ConversionFile>, fetchOk: string -> bool) returns (zip: map<string, string>, fetched: bool)
    requires forall i :: 0 <= i < |sel| ==> sel[i].outputPreviewUrl.Some?
    ensures fetched <==> AllFetched(sel, fetchOk)
    ensures fetched ==> zip == ZipEntries(sel)
  {
    zip := map[];
    fetched := true;
    var i := 0;
    while i < |sel| && fetched
      invariant 0 <= i <= |sel|
      invariant fetched ==> zip == ZipEntries(sel[..i]) && AllFetched(sel[..i], fetchOk)
      invariant !fetched ==> !AllFetched(sel, fetchOk)
      decreases |sel| - i, fetched
    {
      var url := sel[i].outputPreviewUrl.value;
      AddEntriesStep(sel, i, fetchOk);
      if !fetchOk(url) {
        fetched := false;
      } else {
        zip := zip[DownloadFileName(sel[i]) := url];
        i := i + 1;
      }
    }
    if fetched {
      assert sel[..i] == sel;
    }
  }

  /** One more item of the selection: its entry is added last, and it must
      have been fetched as well. */
  lemma AddEntriesStep(sel: seq<ConversionFile>, i: nat, fetchOk: string -> bool)
    requires forall k :: 0 <= k < |sel| ==> sel[k].outputPreviewUrl.Some?
    requires i < |sel|
    ensures ZipEntries(sel[..i + 1]) == ZipEntries(sel[..i])[DownloadFileName(sel[i]) := sel[i].outputPreviewUrl.value]
    ensures AllFetched(sel[..i + 1], fetchOk) <==> AllFetched(sel[..i], fetchOk) && fetchOk(sel[i].outputPreviewUrl.value)
    ensures !fetchOk(sel[i].outputPreviewUrl.value) ==> !AllFetched(sel, fetchOk)
  {
    assert sel[..i + 1][..i] == sel[..i];
  }
}
