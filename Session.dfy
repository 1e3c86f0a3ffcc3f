/** The batch session of App.tsx: the work-item list, the session status and
    the global error message, changed in place by the handlers. */
module Session {
  import opened Types
  import opened Batch

  class Session {
    var files: seq<ConversionFile>
    var appStatus: AppStatus
    var globalError: Option<string>
    /** The next id to hand out; stands for `crypto.randomUUID`. */
    var nextId: FileId

    /** Ids are distinct and all were handed out before; the session logic
        never enters the declared `ERROR` status. */
    ghost predicate Valid()
      reads this
    {
      DistinctIds(files)
      && (forall i :: 0 <= i < |files| ==> files[i].id < nextId)
      && appStatus != Error
    }

    constructor()
      ensures Valid()
      ensures files == [] && appStatus == Idle && globalError == None
    {
      files := [];
      appStatus := Idle;
      globalError := None;
      nextId := 0;
    }

    /** `handleFileSelect`: the selection is settled file by file; the
        successes are appended in submission order, the failures become the
        global error. The failures are joined with a line break, the
        separator evidently intended, not with the backslash and `n` the
        source writes (see `JoinFailuresAsWritten`). The status becomes `LOADED` when some file
        was taken, `IDLE` when none was and the list is empty, and is kept
        otherwise. */
    method HandleFileSelect(cands: seq<Candidate>)
      requires Valid()
      modifies this
      ensures Valid()
      ensures var results := SettleAll(cands, old(nextId));
        var ok, bad := Successes(results), Failures(results);
        files == old(files) + ok
        && globalError == (if |bad| > 0 then Some(JoinFailures(bad)) else None)
        && appStatus == (if |ok| > 0 then Loaded else if |old(files)| == 0 then Idle else old(appStatus))
      ensures nextId == old(nextId) + |cands|
      ensures AllConsistent(old(files)) ==> AllConsistent(files)
    {
      globalError := None;
      var results := SettleAll(cands, nextId);
      var ok, bad := Successes(results), Failures(results);
      SuccessesOfSelection(cands, nextId);
      SuccessesConsistent(cands, nextId);
      nextId := nextId + |cands|;
      if |bad| > 0 {
        globalError := Some(JoinFailures(bad));
      }
      if |ok| > 0 {
        files := files + ok;
        appStatus := Loaded;
      } else if |files| == 0 {
        appStatus := Idle;
      }
    }

    /** `updateFileState(id, updates)`: only the item with that id changes,
        and only in the patched fields. */
    method UpdateFileState(id: FileId, u: Patch)
      requires Valid()
      modifies this
      ensures Valid()
      ensures files == UpdateById(old(files), id, u)
      ensures appStatus == old(appStatus) && globalError == old(globalError) && nextId == old(nextId)
    {
      UpdateByIdSpec(files, id, u);
      files := UpdateById(files, id, u);
    }

    /** `handleConvertAll`: the queued items, snapshotted in list order, are
        taken one at a time through `CONVERTING` to their outcome; the other
        items are untouched, and the session ends `DONE` in every case. */
    method HandleConvertAll(render: ConversionFile -> RenderResult)
      requires Valid()
      modifies this
      ensures Valid()
      ensures files == ConvertAll(old(files), render)
      ensures appStatus == Done && globalError == old(globalError) && nextId == old(nextId)
      ensures AllConsistent(old(files)) ==> AllConsistent(files)
    {
      appStatus := Processing;
      var queue := WithStatus(files, Queued);
      ghost var start := files;
      for k := 0 to |queue|
        invariant Valid() && appStatus == Processing && globalError == old(globalError)
        invariant nextId == old(nextId)
        invariant DistinctIds(start) && ConvertedUpTo(files, start, queue[..k], render)
      {
        var item := queue[k];
        QueueStep(start, queue, k);
        ConvertStep(files, start, queue[..k], item, render);
        ConvertItem(item, render, start, queue[..k]);
      }
      assert queue[..|queue|] == queue;
      ConvertedAll(files, start, render);
      if AllConsistent(start) {
        ConvertAllConsistent(start, render);
      }
      appStatus := Done;
    }

    /** One turn of the loop of `handleConvertAll`: the item is marked
        `CONVERTING`, then patched with the outcome of its conversion.
        `start` is the list when the run began and `done` the items of the
        queue converted so far. */
    method ConvertItem(item: ConversionFile, render: ConversionFile -> RenderResult,
                       ghost start: seq<ConversionFile>, ghost done: seq<ConversionFile>)
      requires Valid() && DistinctIds(start) && ConvertedUpTo(files, start, done, render)
      requires item in start && item !in done
      modifies this
      ensures Valid() && appStatus == old(appStatus) && globalError == old(globalError)
      ensures nextId == old(nextId)
      ensures files == UpdateById(UpdateById(old(files), item.id, MarkConverting), item.id, ConvertOutcome(item, render(item)))
    {
      MarkConvertingStep(files, start, done, item, render);
      UpdateFileState(item.id, MarkConverting);
      // only the item at hand is `CONVERTING` that was not so before the run
      assert forall j :: 0 <= j < |files| && files[j].status == Converting ==>
        files[j].id == item.id || start[j].status == Converting;
      UpdateFileState(item.id, ConvertOutcome(item, render(item)));
    }

    /** `handleReset`: the list is emptied, the status is `IDLE`, the error
        is cleared. */
    method HandleReset()
      requires Valid()
      modifies this
      ensures Valid()
      ensures files == [] && appStatus == Idle && globalError == None && nextId == old(nextId)
    {
      files := [];
      appStatus := Idle;
      globalError := None;
    }

    /** `handleRemoveFile(id)`: the items with that id are dropped; an empty
        list sends the session back to `IDLE`. */
    method HandleRemoveFile(id: FileId)
      requires Valid()
      modifies this
      ensures Valid()
      ensures files == RemoveById(old(files), id)
      ensures appStatus == if |files| == 0 then Idle else old(appStatus)
      ensures globalError == old(globalError) && nextId == old(nextId)
      ensures AllConsistent(old(files)) ==> AllConsistent(files)
    {
      if AllConsistent(files) {
        RemoveByIdConsistent(files, id);
      }
      RemoveByIdMembers(files, id);
      RemoveByIdDistinct(files, id);
      files := RemoveById(files, id);
      if |files| == 0 {
        appStatus := Idle;
      }
    }

    /** `canConvert`: some item is queued. */
    function CanConvert(): (b: bool)
      reads this
      ensures b <==> exists i :: 0 <= i < |files| && files[i].status == Queued
    {
      AnyQueuedSpec(files);
      AnyQueued(files)
    }
  }
}
