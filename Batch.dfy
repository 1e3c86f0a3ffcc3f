/** The list logic of the batch session in App.tsx: intake of selected files,
    the aggregation of their settled results, the update of one item by id,
    removal, the queue snapshot and the outcome of converting one item. The
    session object that holds the state is in Session.dfy. */
module Batch {
  import opened Types
  import opened Strings
  import Conversion
  import Utf8
  import Markup

  const SvgMime: string := "image/svg+xml"
  const PngMime: string := "image/png"

  const InvalidTypeMessage: string := ": 잘못된 파일 형식입니다."
  const ImageFailedMessage: string := ": 이미지 크기를 불러올 수 없습니다."
  const ReadFailedMessage: string := ": 파일을 읽는데 실패했습니다."
  const UnknownConversionError: string := "알 수 없는 변환 오류"

  /** The browser's work on one accepted file: `FileReader` fails, or the
      image fails to decode, or both succeed with the file's bytes (which
      `readAsDataURL` turns into the preview URL) and the decoded size. */
  datatype IntakeProbe = ReadFailed | ImageFailed | Decoded(bytes: seq<Utf8.Byte>, width: nat, height: nat)

  /** A selected file together with what the browser will report for it. */
  datatype Candidate = Candidate(file: SourceFile, probe: IntakeProbe)

  /** The type gate: only these two declared types are accepted. */
  predicate Accepted(mimeType: string) {
    mimeType == SvgMime || mimeType == PngMime
  }

  /** The direction of an accepted file. */
  function Direction(mimeType: string): ConversionType {
    if mimeType == SvgMime then SvgToPng else PngToSvg
  }

  /** How the promise built for one selected file settles. */
  function Settle(file: SourceFile, probe: IntakeProbe, id: FileId): Settled<ConversionFile> {
    if !Accepted(file.mimeType) then Rejected(file.name + InvalidTypeMessage)
    else
      match probe
      case ReadFailed => Rejected(file.name + ReadFailedMessage)
      case ImageFailed => Rejected(file.name + ImageFailedMessage)
      case Decoded(bytes, width, height) =>
        var url := Conversion.ReadAsDataUrl(file.mimeType, bytes);
        Fulfilled(ConversionFile(id, file, Queued, url, width, height, None, Direction(file.mimeType), None))
  }

  /** A file is taken in exactly when its type passes the gate and the browser
      reads and decodes it; a taken file is a fresh queued item with the
      decoded size, no output and no error, whose direction is SVG to PNG
      exactly for `image/svg+xml`. Every refusal names the file and the reason. */
  lemma SettleSpec(file: SourceFile, probe: IntakeProbe, id: FileId)
    ensures var r := Settle(file, probe, id);
      (r.Fulfilled? <==> Accepted(file.mimeType) && probe.Decoded?)
      && (!Accepted(file.mimeType) ==> r == Rejected(file.name + InvalidTypeMessage))
      && (Accepted(file.mimeType) && probe.ReadFailed? ==> r == Rejected(file.name + ReadFailedMessage))
      && (Accepted(file.mimeType) && probe.ImageFailed? ==> r == Rejected(file.name + ImageFailedMessage))
      && (r.Fulfilled? ==>
            var f := r.value;
            f.id == id && f.file == file && f.status == Queued
            && f.previewUrl == Conversion.ReadAsDataUrl(file.mimeType, probe.bytes) && f.width == probe.width && f.height == probe.height
            && f.outputPreviewUrl == None && f.error == None
            && (f.conversionType == SvgToPng <==> file.mimeType == SvgMime)
            && (f.conversionType == PngToSvg <==> file.mimeType == PngMime))
  {
  }

  /** The settled results of a selection, in submission order; the `i`-th
      candidate is offered the id `firstId + i`. */
  function SettleAll(cands: seq<Candidate>, firstId: FileId): (r: seq<Settled<ConversionFile>>)
    ensures |r| == |cands|
    ensures forall i :: 0 <= i < |cands| ==> r[i] == Settle(cands[i].file, cands[i].probe, firstId + i)
    decreases |cands|
  {
    if |cands| == 0 then []
    else [Settle(cands[0].file, cands[0].probe, firstId)] + SettleAll(cands[1..], firstId + 1)
  }

  /** The values of the fulfilled results, in order. */
  function Successes(results: seq<Settled<ConversionFile>>): seq<ConversionFile>
    decreases |results|
  {
    if |results| == 0 then []
    else if results[0].Fulfilled? then [results[0].value] + Successes(results[1..])
    else Successes(results[1..])
  }

  /** The reasons of the rejected results, in order. */
  function Failures(results: seq<Settled<ConversionFile>>): seq<string>
    decreases |results|
  {
    if |results| == 0 then []
    else if results[0].Rejected? then [results[0].reason] + Failures(results[1..])
    else Failures(results[1..])
  }

  /** Every result is either a success or a failure, and order is kept: the
      split of two batches in a row is the two splits in a row. */
  lemma {:induction false} PartitionSplits(a: seq<Settled<ConversionFile>>, b: seq<Settled<ConversionFile>>)
    ensures Successes(a + b) == Successes(a) + Successes(b)
    ensures Failures(a + b) == Failures(a) + Failures(b)
    ensures |Successes(a)| + |Failures(a)| == |a|
    decreases |a|
  {
    if |a| == 0 {
      assert a + b == b;
    } else {
      assert (a + b)[1..] == a[1..] + b;
      PartitionSplits(a[1..], b);
    }
  }

  /** Settling two selections in a row is settling each, the second one
      offered the ids after the first. */
  lemma SettleAllAppend(a: seq<Candidate>, b: seq<Candidate>, firstId: FileId)
    ensures SettleAll(a + b, firstId) == SettleAll(a, firstId) + SettleAll(b, firstId + |a|)
  {
    var whole, parts := SettleAll(a + b, firstId), SettleAll(a, firstId) + SettleAll(b, firstId + |a|);
    forall i | 0 <= i < |whole| ensures whole[i] == parts[i] {
      if i < |a| {
        assert (a + b)[i] == a[i];
      } else {
        assert (a + b)[i] == b[i - |a|];
      }
    }
  }

  /** Submission order is kept: the successes and the failures of two
      selections in a row are those of the first followed by those of the
      second. */
  lemma SelectionInOrder(a: seq<Candidate>, b: seq<Candidate>, firstId: FileId)
    ensures Successes(SettleAll(a + b, firstId))
         == Successes(SettleAll(a, firstId)) + Successes(SettleAll(b, firstId + |a|))
    ensures Failures(SettleAll(a + b, firstId))
         == Failures(SettleAll(a, firstId)) + Failures(SettleAll(b, firstId + |a|))
  {
    SettleAllAppend(a, b, firstId);
    PartitionSplits(SettleAll(a, firstId), SettleAll(b, firstId + |a|));
  }

  /** Every fulfilled result is among the successes, every rejected one among
      the failures. */
  lemma {:induction false} SettledMembers(results: seq<Settled<ConversionFile>>)
    ensures forall i :: 0 <= i < |results| && results[i].Fulfilled? ==> results[i].value in Successes(results)
    ensures forall i :: 0 <= i < |results| && results[i].Rejected? ==> results[i].reason in Failures(results)
    decreases |results|
  {
    if |results| > 0 {
      SettledMembers(results[1..]);
      assert forall i :: 1 <= i < |results| ==> results[i] == results[1..][i - 1];
    }
  }

  /** Failure isolation: in a selection, every file that passes the type gate
      and is read and decoded is taken in as a queued item, and every other
      file is reported with its own message, whatever the other files do. */
  lemma SelectionIsolation(cands: seq<Candidate>, firstId: FileId)
    ensures var results := SettleAll(cands, firstId);
      forall i :: 0 <= i < |cands| ==>
        var s := Settle(cands[i].file, cands[i].probe, firstId + i);
        (Accepted(cands[i].file.mimeType) && cands[i].probe.Decoded? ==>
           s.Fulfilled? && s.value.status == Queued && s.value in Successes(results))
        && (!(Accepted(cands[i].file.mimeType) && cands[i].probe.Decoded?) ==>
           s.Rejected? && s.reason in Failures(results))
  {
    SettledMembers(SettleAll(cands, firstId));
  }

  /** The successes of a selection are queued items with the ids offered to
      them: ids at least `firstId`, below `firstId + |cands|`, all distinct. */
  lemma {:induction false} SuccessesOfSelection(cands: seq<Candidate>, firstId: FileId)
    ensures var ok := Successes(SettleAll(cands, firstId));
      |ok| <= |cands|
      && (forall i :: 0 <= i < |ok| ==> ok[i].status == Queued && firstId <= ok[i].id < firstId + |cands|)
      && DistinctIds(ok)
    decreases |cands|
  {
    if |cands| > 0 {
      var results := SettleAll(cands, firstId);
      var rest := Successes(SettleAll(cands[1..], firstId + 1));
      SuccessesOfSelection(cands[1..], firstId + 1);
      assert results[1..] == SettleAll(cands[1..], firstId + 1);
      if results[0].Fulfilled? {
        assert results[0].value.id == firstId;
        assert Successes(results) == [results[0].value] + rest;
      }
    }
  }

  /** The ids of a list are pairwise distinct. */
  predicate DistinctIds(files: seq<ConversionFile>) {
    forall i, j :: 0 <= i < j < |files| ==> files[i].id != files[j].id
  }

  /** `failedFiles.join('\\n')` as written: the separator is a backslash
      followed by `n`, two characters. */
  const SeparatorAsWritten: string := "\\n"

  /** The separator evidently intended: a line break, which the uploader's
      error box (`whitespace-pre-wrap`) shows as one message per line. */
  const Separator: string := "\n"

  function JoinFailuresAsWritten(failures: seq<string>): string {
    Join(failures, SeparatorAsWritten)
  }

  function JoinFailures(failures: seq<string>): string {
    Join(failures, Separator)
  }

  /** As written, the joined text of several one-line messages holds no line
      break at all: the messages run together on one line. */
  lemma JoinFailuresAsWrittenOneLine(failures: seq<string>)
    requires forall i :: 0 <= i < |failures| ==> '\n' !in failures[i]
    ensures '\n' !in JoinFailuresAsWritten(failures)
  {
    JoinAvoids(failures, SeparatorAsWritten, '\n');
  }

  /** A concrete case: two refused files give a single line. */
  lemma JoinFailuresAsWrittenExample()
    ensures var text := JoinFailuresAsWritten(["a.gif" + InvalidTypeMessage, "b.bmp" + InvalidTypeMessage]);
      text == "a.gif" + InvalidTypeMessage + "\\n" + "b.bmp" + InvalidTypeMessage
      && '\n' !in text && |Split(text, '\n')| == 1
  {
    var msgs := ["a.gif" + InvalidTypeMessage, "b.bmp" + InvalidTypeMessage];
    assert '\n' !in msgs[0] && '\n' !in msgs[1];
    assert msgs[1..] == [msgs[1]];
    assert Join(msgs[1..], SeparatorAsWritten) == msgs[1];
    assert JoinFailuresAsWritten(msgs) == msgs[0] + SeparatorAsWritten + msgs[1];
    JoinFailuresAsWrittenOneLine(msgs);
    SplitWithout(JoinFailuresAsWritten(msgs), '\n');
  }

  /** With the line-break separator every message is on its own line: the
      lines of the joined text are exactly the messages, in order. */
  lemma JoinFailuresLines(failures: seq<string>)
    requires |failures| >= 1
    requires forall i :: 0 <= i < |failures| ==> '\n' !in failures[i]
    ensures Split(JoinFailures(failures), '\n') == failures
  {
    SplitJoin(failures, '\n');
  }

  /** `Partial<ConversionFile>` as the session uses it: a new status, a
      result URL and an error message, each optional. */
  datatype Patch = Patch(status: Option<FileStatus>, outputPreviewUrl: Option<string>, error: Option<string>)

  /** `{ ...f, ...updates }`: the fields the patch names are replaced. */
  function ApplyPatch(f: ConversionFile, u: Patch): ConversionFile {
    f.(status := if u.status.Some? then u.status.value else f.status,
       outputPreviewUrl := if u.outputPreviewUrl.Some? then u.outputPreviewUrl else f.outputPreviewUrl,
       error := if u.error.Some? then u.error else f.error)
  }

  /** A patch changes exactly the fields it names; id, file, preview, size
      and direction are never touched. */
  lemma ApplyPatchSpec(f: ConversionFile, u: Patch)
    ensures var g := ApplyPatch(f, u);
      g.id == f.id && g.file == f.file && g.previewUrl == f.previewUrl
      && g.width == f.width && g.height == f.height && g.conversionType == f.conversionType
      && (u.status.Some? ==> g.status == u.status.value) && (u.status.None? ==> g.status == f.status)
      && (u.outputPreviewUrl.Some? ==> g.outputPreviewUrl == u.outputPreviewUrl)
      && (u.outputPreviewUrl.None? ==> g.outputPreviewUrl == f.outputPreviewUrl)
      && (u.error.Some? ==> g.error == u.error) && (u.error.None? ==> g.error == f.error)
  {
  }

  /** A later patch that sets the status hides an earlier status-only patch. */
  lemma ApplyPatchStatusOverride(f: ConversionFile, s: FileStatus, u: Patch)
    requires u.status.Some?
    ensures ApplyPatch(ApplyPatch(f, Patch(Some(s), None, None)), u) == ApplyPatch(f, u)
  {
  }

  /** `updateFileState(id, u)`: the items with that id are patched. */
  function UpdateById(files: seq<ConversionFile>, id: FileId, u: Patch): (r: seq<ConversionFile>)
    ensures |r| == |files|
    ensures forall i :: 0 <= i < |r| ==> r[i] == if files[i].id == id then ApplyPatch(files[i], u) else files[i]
  {
    seq(|files|, i requires 0 <= i < |files| => if files[i].id == id then ApplyPatch(files[i], u) else files[i])
  }

  /** An id that no item carries leaves the list as it is; ids, and with them
      their distinctness, are kept. */
  lemma UpdateByIdSpec(files: seq<ConversionFile>, id: FileId, u: Patch)
    ensures (forall i :: 0 <= i < |files| ==> files[i].id != id) ==> UpdateById(files, id, u) == files
    ensures forall i :: 0 <= i < |files| ==> UpdateById(files, id, u)[i].id == files[i].id
    ensures DistinctIds(files) ==> DistinctIds(UpdateById(files, id, u))
  {
  }

  /** `prev.filter(f => f.id !== id)`. */
  function RemoveById(files: seq<ConversionFile>, id: FileId): (r: seq<ConversionFile>)
    ensures |r| <= |files|
    decreases |files|
  {
    if |files| == 0 then []
    else if files[0].id == id then RemoveById(files[1..], id)
    else [files[0]] + RemoveById(files[1..], id)
  }

  /** Removal deletes exactly the items with that id. */
  lemma {:induction false} RemoveByIdMembers(files: seq<ConversionFile>, id: FileId)
    ensures forall f :: f in RemoveById(files, id) <==> f in files && f.id != id
    decreases |files|
  {
    if |files| > 0 {
      RemoveByIdMembers(files[1..], id);
      assert files == [files[0]] + files[1..];
    }
  }

  /** Removal keeps the order of the rest: it distributes over concatenation. */
  lemma {:induction false} RemoveByIdAppend(a: seq<ConversionFile>, b: seq<ConversionFile>, id: FileId)
    ensures RemoveById(a + b, id) == RemoveById(a, id) + RemoveById(b, id)
    decreases |a|
  {
    if |a| == 0 {
      assert a + b == b;
    } else {
      assert (a + b)[1..] == a[1..] + b;
      RemoveByIdAppend(a[1..], b, id);
    }
  }

  /** Removing an id that no item carries changes nothing. */
  lemma {:induction false} RemoveByIdAbsent(files: seq<ConversionFile>, id: FileId)
    requires forall i :: 0 <= i < |files| ==> files[i].id != id
    ensures RemoveById(files, id) == files
    decreases |files|
  {
    if |files| > 0 {
      RemoveByIdAbsent(files[1..], id);
      assert files == [files[0]] + files[1..];
    }
  }

  /** Removal keeps ids distinct. */
  lemma {:induction false} RemoveByIdDistinct(files: seq<ConversionFile>, id: FileId)
    requires DistinctIds(files)
    ensures DistinctIds(RemoveById(files, id))
    decreases |files|
  {
    if |files| > 0 {
      RemoveByIdDistinct(files[1..], id);
      RemoveByIdMembers(files[1..], id);
      assert forall j :: 1 <= j < |files| ==> files[j].id != files[0].id;
      assert forall f :: f in files[1..] ==> f.id != files[0].id;
    }
  }

  /** `files.filter(f => f.status === s)`. */
  function WithStatus(files: seq<ConversionFile>, s: FileStatus): (r: seq<ConversionFile>)
    ensures |r| <= |files|
    decreases |files|
  {
    if |files| == 0 then []
    else if files[0].status == s then [files[0]] + WithStatus(files[1..], s)
    else WithStatus(files[1..], s)
  }

  /** The filter keeps exactly the items with that status. */
  lemma {:induction false} WithStatusMembers(files: seq<ConversionFile>, s: FileStatus)
    ensures forall f :: f in WithStatus(files, s) <==> f in files && f.status == s
    decreases |files|
  {
    if |files| > 0 {
      WithStatusMembers(files[1..], s);
      assert files == [files[0]] + files[1..];
    }
  }

  /** The filter keeps order: it distributes over concatenation. */
  lemma {:induction false} WithStatusAppend(a: seq<ConversionFile>, b: seq<ConversionFile>, s: FileStatus)
    ensures WithStatus(a + b, s) == WithStatus(a, s) + WithStatus(b, s)
    decreases |a|
  {
    if |a| == 0 {
      assert a + b == b;
    } else {
      assert (a + b)[1..] == a[1..] + b;
      WithStatusAppend(a[1..], b, s);
    }
  }

  /** The filter keeps ids distinct. */
  lemma {:induction false} WithStatusDistinct(files: seq<ConversionFile>, s: FileStatus)
    requires DistinctIds(files)
    ensures DistinctIds(WithStatus(files, s))
    decreases |files|
  {
    if |files| > 0 {
      WithStatusDistinct(files[1..], s);
      WithStatusMembers(files[1..], s);
      assert forall j :: 1 <= j < |files| ==> files[j].id != files[0].id;
      assert forall f :: f in files[1..] ==> f.id != files[0].id;
    }
  }

  /** Items of two different statuses are counted apart: together they are
      at most the whole list. */
  lemma {:induction false} StatusCountsBounded(files: seq<ConversionFile>, s: FileStatus, t: FileStatus)
    requires s != t
    ensures |WithStatus(files, s)| + |WithStatus(files, t)| <= |files|
    decreases |files|
  {
    if |files| > 0 {
      StatusCountsBounded(files[1..], s, t);
    }
  }

  /** `files.some(f => f.status === QUEUED)`. */
  function AnyQueued(files: seq<ConversionFile>): bool
    decreases |files|
  {
    |files| > 0 && (files[0].status == Queued || AnyQueued(files[1..]))
  }

  /** Conversion is possible exactly when some item is queued, that is, when
      the queue snapshot is not empty. */
  lemma {:induction false} AnyQueuedSpec(files: seq<ConversionFile>)
    ensures AnyQueued(files) <==> exists i :: 0 <= i < |files| && files[i].status == Queued
    ensures AnyQueued(files) <==> |WithStatus(files, Queued)| > 0
    decreases |files|
  {
    if |files| > 0 {
      AnyQueuedSpec(files[1..]);
      if files[0].status != Queued {
        assert forall i :: 1 <= i < |files| ==> files[i] == files[1..][i - 1];
        if exists i :: 0 <= i < |files| && files[i].status == Queued {
          var i :| 0 <= i < |files| && files[i].status == Queued;
          assert files[1..][i - 1].status == Queued;
        }
      }
    }
  }

  /** What the converter call of one item reports: a result URL, or a thrown
      value, with its message when it is an `Error`. */
  datatype RenderResult = Rendered(url: string) | Threw(message: Option<string>)

  /** The outcome of converting one item. PNG to SVG uses the modelled
      `convertPngToSvg`, which always resolves; SVG to PNG is the browser
      rendering reported by `render`. */
  function ConvertOutcome(f: ConversionFile, render: RenderResult): (u: Patch)
    ensures u.status.Some? && IsTerminal(u.status.value)
  {
    match f.conversionType
    case PngToSvg =>
      Patch(Some(Converted), Some(Conversion.ConvertPngToSvg(f.previewUrl, f.width, f.height)), None)
    case SvgToPng =>
      match render
      case Rendered(url) => Patch(Some(Converted), Some(url), None)
      case Threw(message) =>
        Patch(Some(Failed), None, Some(if message.Some? then message.value else UnknownConversionError))
  }

  /** An item ends converted with a result URL, or failed with the thrown
      message or the fallback text; PNG to SVG never fails, and its result is
      the SVG data URL. */
  lemma ConvertOutcomeSpec(f: ConversionFile, render: RenderResult)
    ensures var g := ApplyPatch(f, ConvertOutcome(f, render));
      IsTerminal(g.status)
      && (g.status == Converted ==> g.outputPreviewUrl.Some?)
      && (g.status == Failed ==> g.error.Some? && g.outputPreviewUrl == f.outputPreviewUrl)
      && (f.conversionType == PngToSvg ==>
            g.status == Converted
            && g.outputPreviewUrl == Some(Conversion.ConvertPngToSvg(f.previewUrl, f.width, f.height)))
      && (f.conversionType == SvgToPng && render.Rendered? ==>
            g == f.(status := Converted, outputPreviewUrl := Some(render.url)))
      && (f.conversionType == SvgToPng && render.Threw? && render.message.Some? ==>
            g == f.(status := Failed, error := render.message))
      && (f.conversionType == SvgToPng && render.Threw? && render.message.None? ==>
            g == f.(status := Failed, error := Some(UnknownConversionError)))
  {
  }

  /** The work-item invariant: an output exactly when converted, an error
      message exactly when failed. */
  predicate Consistent(f: ConversionFile) {
    (f.outputPreviewUrl.Some? <==> f.status == Converted) && (f.error.Some? <==> f.status == Failed)
  }

  /** Every item of the list keeps the work-item invariant. */
  predicate AllConsistent(files: seq<ConversionFile>) {
    forall i :: 0 <= i < |files| ==> Consistent(files[i])
  }

  /** A freshly taken item keeps the work-item invariant. */
  lemma SettledConsistent(file: SourceFile, probe: IntakeProbe, id: FileId)
    ensures Settle(file, probe, id).Fulfilled? ==> Consistent(Settle(file, probe, id).value)
  {
  }

  /** Converting a consistent queued item leaves it consistent, and so does
      marking it `CONVERTING` first. */
  lemma ConvertedConsistent(f: ConversionFile, render: RenderResult)
    requires Consistent(f) && f.status == Queued
    ensures Consistent(ApplyPatch(f, MarkConverting))
    ensures Consistent(ApplyPatch(f, ConvertOutcome(f, render)))
  {
    ConvertOutcomeSpec(f, render);
  }

  /** One item after its conversion. */
  function AfterConversion(f: ConversionFile, render: ConversionFile -> RenderResult): ConversionFile {
    ApplyPatch(f, ConvertOutcome(f, render(f)))
  }

  /** The whole list after converting every queued item: queued items are
      converted, the others are left as they are. */
  function ConvertAll(files: seq<ConversionFile>, render: ConversionFile -> RenderResult): seq<ConversionFile> {
    seq(|files|, i requires 0 <= i < |files| =>
      if files[i].status == Queued then AfterConversion(files[i], render) else files[i])
  }

  /** After converting all, no item is queued, every item that was queued is
      finished, every other item is unchanged, and ids are kept. */
  lemma ConvertAllSpec(files: seq<ConversionFile>, render: ConversionFile -> RenderResult)
    ensures var r := ConvertAll(files, render);
      |r| == |files| && !AnyQueued(r)
      && (forall i :: 0 <= i < |r| ==> r[i].id == files[i].id)
      && (forall i :: 0 <= i < |r| && files[i].status == Queued ==> IsTerminal(r[i].status))
      && (forall i :: 0 <= i < |r| && files[i].status != Queued ==> r[i] == files[i])
  {
    var r := ConvertAll(files, render);
    forall i | 0 <= i < |r| ensures r[i].status != Queued {
      if files[i].status == Queued {
        ConvertOutcomeSpec(files[i], render(files[i]));
      }
    }
    AnyQueuedSpec(r);
  }

  /** Converting all keeps the work-item invariant of every item. */
  lemma ConvertAllConsistent(files: seq<ConversionFile>, render: ConversionFile -> RenderResult)
    requires AllConsistent(files)
    ensures AllConsistent(ConvertAll(files, render))
  {
    var r := ConvertAll(files, render);
    forall i | 0 <= i < |r| ensures Consistent(r[i]) {
      if files[i].status == Queued {
        ConvertedConsistent(files[i], render(files[i]));
      }
    }
  }

  /** Removal keeps the work-item invariant of every item. */
  lemma RemoveByIdConsistent(files: seq<ConversionFile>, id: FileId)
    requires AllConsistent(files)
    ensures AllConsistent(RemoveById(files, id))
  {
    RemoveByIdMembers(files, id);
    var r := RemoveById(files, id);
    forall i | 0 <= i < |r| ensures Consistent(r[i]) {
      assert r[i] in files;
    }
  }

  /** The successes of a selection keep the work-item invariant. */
  lemma {:induction false} SuccessesConsistent(cands: seq<Candidate>, firstId: FileId)
    ensures AllConsistent(Successes(SettleAll(cands, firstId)))
    decreases |cands|
  {
    if |cands| > 0 {
      var results := SettleAll(cands, firstId);
      SuccessesConsistent(cands[1..], firstId + 1);
      assert results[1..] == SettleAll(cands[1..], firstId + 1);
      SettledConsistent(cands[0].file, cands[0].probe, firstId);
    }
  }

  /** A PNG taken in through the browser and converted gives an SVG data URL
      whose document holds exactly one image, referring to the item's preview
      URL with the item's size. */
  lemma SettledPngEmbedsPreview(file: SourceFile, probe: IntakeProbe, id: FileId, render: RenderResult)
    requires Settle(file, probe, id).Fulfilled?
    requires Settle(file, probe, id).value.conversionType == PngToSvg
    ensures var f := Settle(file, probe, id).value;
      var out := ConvertOutcome(f, render).outputPreviewUrl;
      out.Some? && Conversion.DecodeSvgDataUrl(out.value) == Some(Conversion.SvgDocument(f.width, f.height, f.previewUrl))
      && var images := Markup.Named(Markup.Tags(Conversion.SvgDocument(f.width, f.height, f.previewUrl)), "image");
         |images| == 1 && Markup.Attr(images[0], "href") == Some(f.previewUrl)
         && Conversion.NatAttr(images[0], "width") == Some(f.width)
         && Conversion.NatAttr(images[0], "height") == Some(f.height)
  {
    var f := Settle(file, probe, id).value;
    assert file.mimeType == PngMime;
    Conversion.ReadAsDataUrlIsInert(file.mimeType, probe.bytes);
    Conversion.ConvertPngToSvgDecodes(f.previewUrl, f.width, f.height);
    Conversion.DocumentEmbedsPng(f.width, f.height, f.previewUrl);
  }

  /** The list part-way through converting all: the items of `done` have
      been converted, every other item is as it was in `start`. */
  ghost predicate ConvertedUpTo(files: seq<ConversionFile>, start: seq<ConversionFile>,
                                done: seq<ConversionFile>, render: ConversionFile -> RenderResult) {
    |files| == |start|
    && forall j :: 0 <= j < |files| ==>
         files[j] == if start[j] in done then AfterConversion(start[j], render) else start[j]
  }

  const MarkConverting: Patch := Patch(Some(Converting), None, None)

  /** Marking the next item `CONVERTING` makes it the only item in that
      status that was not already so at the start. */
  lemma MarkConvertingStep(files: seq<ConversionFile>, start: seq<ConversionFile>,
                           done: seq<ConversionFile>, item: ConversionFile, render: ConversionFile -> RenderResult)
    requires ConvertedUpTo(files, start, done, render) && DistinctIds(start)
    requires item in start && item !in done
    ensures var marked := UpdateById(files, item.id, MarkConverting);
      forall j :: 0 <= j < |marked| && marked[j].status == Converting ==>
        marked[j].id == item.id || start[j].status == Converting
  {
    var marked := UpdateById(files, item.id, MarkConverting);
    forall j | 0 <= j < |marked| && marked[j].id != item.id
      ensures marked[j].status == Converting ==> start[j].status == Converting
    {
      ConvertOutcomeSpec(start[j], render(start[j]));
    }
  }

  /** One turn of the convert-all loop: marking the next item and then
      patching it with its outcome extends the converted part by that item. */
  lemma ConvertStep(files: seq<ConversionFile>, start: seq<ConversionFile>,
                    done: seq<ConversionFile>, item: ConversionFile, render: ConversionFile -> RenderResult)
    requires ConvertedUpTo(files, start, done, render) && DistinctIds(start)
    requires item in start && item !in done
    ensures ConvertedUpTo(
      UpdateById(UpdateById(files, item.id, MarkConverting), item.id, ConvertOutcome(item, render(item))),
      start, done + [item], render)
  {
    var after := UpdateById(UpdateById(files, item.id, MarkConverting), item.id, ConvertOutcome(item, render(item)));
    forall j | 0 <= j < |after|
      ensures after[j] == if start[j] in done + [item] then AfterConversion(start[j], render) else start[j]
    {
      if start[j] == item {
        ApplyPatchStatusOverride(item, Converting, ConvertOutcome(item, render(item)));
      } else {
        var m :| 0 <= m < |start| && start[m] == item;
        assert start[j].id != item.id;
      }
    }
  }

  /** The `k`-th item of the queue snapshot is an item of the list that the
      loop has not reached yet. */
  lemma QueueStep(start: seq<ConversionFile>, queue: seq<ConversionFile>, k: nat)
    requires DistinctIds(start) && queue == WithStatus(start, Queued) && k < |queue|
    ensures queue[k] in start && queue[k] !in queue[..k]
    ensures queue[..k + 1] == queue[..k] + [queue[k]]
  {
    WithStatusMembers(start, Queued);
    WithStatusDistinct(start, Queued);
    assert queue[k] in queue;
  }

  /** When every queued item has been converted, the list is `ConvertAll`. */
  lemma ConvertedAll(files: seq<ConversionFile>, start: seq<ConversionFile>, render: ConversionFile -> RenderResult)
    requires ConvertedUpTo(files, start, WithStatus(start, Queued), render)
    ensures files == ConvertAll(start, render)
  {
    WithStatusMembers(start, Queued);
  }
}
