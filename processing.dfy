/** The start/retry block of the translation page (app.py): one uploaded file,
    one target language. The blob container is a map from blob name to
    bytes, the page's `processing_state` a map from file id to the recorded
    outcome, and the translation service an oracle from the request to the
    per-document statuses it reports and the documents it writes. */
module Processing {
  import opened Wrappers
  import opened Text
  import opened SasUrl
  import opened Naming
  import FileGuard

  type Bytes = FileGuard.Bytes

  // Data
  // ---------------------------------------------------------------------

  datatype DocError = DocError(code: string, message: string)

  /** One document of the translation result: its status and, when it
      failed, the error the service reports (which may be absent). */
  datatype DocStatus = DocStatus(status: string, error: Option<DocError>)

  datatype TranslationRequest = TranslationRequest(
    sourceUrl: string, storageType: string, targetUrl: string, language: string)

  /** What waiting for the translation gives: an exception with its text, or
      the per-document statuses. Either way the service may have written
      documents into the target folder (it writes independently of the
      wait); `outputs` keys them by their names within that folder. */
  datatype TranslationOutcome =
    | Raised(message: string, outputs: map<string, Bytes>)
    | Completed(documents: seq<DocStatus>, outputs: map<string, Bytes>)

  /** An entry of `processing_state`. A failure records the source blob and
      the output prefix when the service reported it, and only the error
      text when an exception escaped. */
  datatype FileState =
    | Failed(sourceBlob: Option<string>, targetPrefix: Option<string>, error: string)
    | Succeeded(data: Bytes, filename: string)

  datatype Upload = Upload(name: string, data: Bytes)

  /** Everything the block reads but does not own: the storage account and
      container, the clock, the SAS library and the translation service. */
  datatype Env = Env(
    account: StorageAccount, container: string, now: int, sdk: Sdk,
    translate: TranslationRequest -> TranslationOutcome)

  /** The container and the page state together. */
  datatype Store = Store(blobs: map<string, Bytes>, state: map<string, FileState>)

  const SucceededStatus: string := "Succeeded"

  /** `str(e)` for the `IndexError` raised by `split('?')[1]` on a SAS URL
      without `?`. */
  const IndexErrorMessage: string := "list index out of range"

  // Names and URLs
  // ---------------------------------------------------------------------

  predicate IsHexOrHyphen(c: char) {
    ('0' <= c <= '9') || ('a' <= c <= 'f') || c == '-'
  }

  /** The shape of `str(uuid.uuid4())`: lower-case hex digits and hyphens. */
  predicate UuidLike(fileId: string) {
    |fileId| > 0 && forall k :: 0 <= k < |fileId| ==> IsHexOrHyphen(fileId[k])
  }

  /** `f"{file_id}_{original_filename}"`, uploaded to the container root. */
  function SourceBlobName(fileId: string, originalName: string): string {
    fileId + "_" + originalName
  }

  /** `f"translated_{file_id}"`, the folder the service writes into. */
  function OutputPrefix(fileId: string): string {
    "translated_" + fileId
  }

  /** The source blob never lies under the output prefix, so the clean-up
      deletes it exactly once. */
  lemma SourceOutsideOutputs(fileId: string, originalName: string)
    requires UuidLike(fileId)
    ensures !StartsWith(SourceBlobName(fileId, originalName), OutputPrefix(fileId))
  {
    var src := SourceBlobName(fileId, originalName);
    assert src[0] == fileId[0];
    assert OutputPrefix(fileId)[0] == 't';
  }

  /** The read-only, viewer-less URL of the source blob. */
  function SourceUrl(env: Env, src: string): string {
    GenerateSasUrl(env.account, env.container, Some(src), None, 1, None, true, env.now, env.sdk)
  }

  /** The container SAS URL. */
  function ContainerSas(env: Env): string {
    GenerateSasUrl(env.account, env.container, None, None, 1, None, false, env.now, env.sdk)
  }

  /** The target folder URL: the container address, the output prefix, and
      the second `?`-separated piece of the container SAS URL; `None` when
      that URL has no `?` (the indexing raises). */
  function TargetUrl(env: Env, prefix: string): (r: Option<string>)
    ensures r.None? <==> '?' !in ContainerSas(env)
  {
    var parts := Split(ContainerSas(env), '?');
    if |parts| < 2 then
      SplitOnePiece(ContainerSas(env), '?');
      None
    else
      SplitSeparated(ContainerSas(env), '?');
      Some(Host(env.account.name) + env.container + "/" + prefix + "?" + parts[1])
  }

  lemma SplitOnePiece(s: string, sep: char)
    requires |Split(s, sep)| < 2
    ensures sep !in s
  {
    JoinSplit(s, sep);
  }

  lemma SplitSeparated(s: string, sep: char)
    requires |Split(s, sep)| >= 2
    ensures sep in s
  {
    var parts := Split(s, sep);
    JoinSplit(s, sep);
    assert s == parts[0] + [sep] + Join(parts[1..], sep);
    assert s[|parts[0]|] == sep;
  }

  /** The request the block submits, or `None` when building the target URL
      raises. */
  function Request(env: Env, fileId: string, originalName: string, langCode: string): Option<TranslationRequest> {
    match TargetUrl(env, OutputPrefix(fileId))
    case None => None
    case Some(target) =>
      Some(TranslationRequest(SourceUrl(env, SourceBlobName(fileId, originalName)), "File", target, langCode))
  }

  /** With a signed container URL whose token has no `?`, the target is the
      output folder of the container carrying that token. */
  lemma TargetUrlCarriesToken(env: Env, prefix: string)
    requires '?' !in env.account.name && '?' !in env.container
    requires SignedContainerUrl(env.account, env.container, 1, env.now, env.sdk).Some?
    ensures var request := ContainerRequest(env.account.name, env.account.key.value, env.container, env.now, 1);
            var token := env.sdk.signContainer(request).value;
            '?' !in token ==>
              TargetUrl(env, prefix) == Some(Host(env.account.name) + env.container + "/" + prefix + "?" + token)
  {
    ContainerUrlShape(env.account, env.container, None, 1, None, false, env.now, env.sdk);
    var request := ContainerRequest(env.account.name, env.account.key.value, env.container, env.now, 1);
    var token := env.sdk.signContainer(request).value;
    if '?' !in token {
      var head := Host(env.account.name) + env.container;
      assert '?' !in head by {
        assert '?' !in "https://" && '?' !in ".blob.core.windows.net/";
      }
      assert ContainerSas(env) == head + "?" + token;
      SplitFree(token, '?');
      assert ("?" + token)[1..] == token;
      assert Split("?" + token, '?') == [[]] + [token];
      SplitPrefix(head, "?" + token, '?');
      assert head + "?" + token == head + ("?" + token);
      assert Split(ContainerSas(env), '?') == [head + []] + [token];
    }
  }

  /** A failed container signature leaves no target: the request is never
      made. */
  lemma SentinelHasNoTarget(env: Env, prefix: string)
    requires SignedContainerUrl(env.account, env.container, 1, env.now, env.sdk).None?
    ensures TargetUrl(env, prefix).None?
  {
    assert ContainerSas(env) == Sentinel;
  }

  // Result processing
  // ---------------------------------------------------------------------

  /** The failed document whose error ends up recorded: the last one that did
      not succeed, since each failure overwrites the entry. */
  function LastFailure(documents: seq<DocStatus>): Option<DocStatus> {
    if documents == [] then None
    else if documents[|documents| - 1].status != SucceededStatus then Some(documents[|documents| - 1])
    else LastFailure(documents[..|documents| - 1])
  }

  /** There is no failure to record exactly when every document succeeded;
      otherwise the one recorded failed and every document after it
      succeeded. */
  lemma {:induction false} LastFailureSpec(documents: seq<DocStatus>)
    ensures LastFailure(documents).None? <==> forall k :: 0 <= k < |documents| ==> documents[k].status == SucceededStatus
    ensures LastFailure(documents).Some? ==>
              exists k :: 0 <= k < |documents| && documents[k] == LastFailure(documents).value &&
                documents[k].status != SucceededStatus &&
                forall j :: k < j < |documents| ==> documents[j].status == SucceededStatus
  {
    if documents != [] {
      var last := |documents| - 1;
      var front := documents[..last];
      if documents[last].status == SucceededStatus {
        assert LastFailure(documents) == LastFailure(front);
        LastFailureSpec(front);
        assert forall k :: 0 <= k < last ==> front[k] == documents[k];
        if LastFailure(front).Some? {
          var k :| 0 <= k < last && front[k] == LastFailure(front).value &&
                   front[k].status != SucceededStatus &&
                   forall j :: k < j < last ==> front[j].status == SucceededStatus;
          assert documents[k] == LastFailure(documents).value;
          assert forall j :: k < j < |documents| ==> documents[j].status == SucceededStatus;
        } else {
          assert forall k :: 0 <= k < |documents| ==> documents[k].status == SucceededStatus;
        }
      } else {
        assert LastFailure(documents) == Some(documents[last]);
      }
    }
  }

  /** The error text shown and recorded for a failed document. */
  function ErrorText(doc: DocStatus): (r: string)
    ensures doc.error.None? <==> r == "Unknown Error"
    ensures doc.error.Some? ==> EndsWith(r, doc.error.value.code + " - " + doc.error.value.message)
  {
    match doc.error
    case None => "Unknown Error"
    case Some(e) =>
      var r := "\U{C5D0}\U{B7EC}: " + e.code + " - " + e.message;
      assert r == "\U{C5D0}\U{B7EC}: " + (e.code + " - " + e.message);
      assert r[0] != "Unknown Error"[0];
      r
  }

  /** The documents the service wrote, at their full names in the container. */
  function Placed(prefix: string, outputs: map<string, Bytes>): (r: map<string, Bytes>)
    ensures forall n :: n in r ==> StartsWith(n, prefix)
    ensures forall o :: o in outputs ==> prefix + "/" + o in r && r[prefix + "/" + o] == outputs[o]
  {
    forall a, b | a in outputs && b in outputs && prefix + "/" + a == prefix + "/" + b
      ensures a == b
    {
      PrefixCancels(prefix + "/", a, b);
    }
    var r := map o | o in outputs :: prefix + "/" + o := outputs[o];
    assert forall n :: n in r ==> StartsWith(n, prefix) by {
      forall n | n in r
        ensures StartsWith(n, prefix)
      {
        var o :| o in outputs && n == prefix + "/" + o;
        assert n[..|prefix|] == prefix;
      }
    }
    r
  }

  lemma PrefixCancels(p: string, a: string, b: string)
    requires p + a == p + b
    ensures a == b
  {
    assert a == (p + a)[|p|..];
    assert b == (p + b)[|p|..];
  }

  /** `list_blobs(name_starts_with=prefix)`, as a set of names. */
  function Listed(blobs: map<string, Bytes>, prefix: string): (r: set<string>)
    ensures forall n :: n in r <==> n in blobs && StartsWith(n, prefix)
  {
    set n | n in blobs && StartsWith(n, prefix)
  }

  /** `n` comes first in the listing: the service lists names in code-point
      order. */
  predicate IsLeast(n: string, names: set<string>) {
    n in names && forall m :: m in names ==> LexLe(n, m)
  }

  lemma {:induction false} LeastExists(names: set<string>)
    requires names != {}
    ensures exists n :: IsLeast(n, names)
    decreases |names|
  {
    var x :| x in names;
    LexLeTotal(x, x);
    if names != {x} {
      LeastExists(names - {x});
      var m :| IsLeast(m, names - {x});
      LexLeTotal(x, m);
      if LexLe(x, m) {
        forall y | y in names
          ensures LexLe(x, y)
        {
          if y != x {
            LexLeTransitive(x, m, y);
          }
        }
        assert IsLeast(x, names);
      } else {
        assert IsLeast(m, names);
      }
    } else {
      assert IsLeast(x, names);
    }
  }

  /** The first name of a listing is determined by the set of names. */
  lemma LeastUnique(a: string, b: string, names: set<string>)
    requires IsLeast(a, names) && IsLeast(b, names)
    ensures a == b
  {
    LexLeAntisymmetric(a, b);
  }

  /** `output_blobs[0]`: the name listed first. */
  ghost function LeastOf(names: set<string>): (n: string)
    requires names != {}
    ensures IsLeast(n, names)
  {
    LeastExists(names);
    var n :| IsLeast(n, names);
    n
  }

  /** The name listed first, found by one pass over the names. */
  method FirstListed(names: set<string>) returns (first: string)
    requires names != {}
    ensures IsLeast(first, names)
  {
    first :| first in names;
    LexLeTotal(first, first);
    var rest := names - {first};
    while rest != {}
      invariant rest <= names && first in names
      invariant forall m :: m in names && m !in rest ==> LexLe(first, m)
      decreases |rest|
    {
      var n :| n in rest;
      LexLeTotal(first, n);
      LexLeTotal(n, n);
      if !LexLe(first, n) {
        forall m | m in names && m !in rest
          ensures LexLe(n, m)
        {
          LexLeTransitive(n, first, m);
        }
        first := n;
      }
      rest := rest - {n};
    }
  }

  // The block as a state transition
  // ---------------------------------------------------------------------

  /** Starting drops a recorded success for the file. */
  function ClearSuccess(state: map<string, FileState>, fileId: string): map<string, FileState> {
    if fileId in state && state[fileId].Succeeded? then state - {fileId} else state
  }

  /** The source is uploaded only when no blob of that name exists, so a
      retry reuses the bytes uploaded first. */
  function UploadOnce(blobs: map<string, Bytes>, src: string, data: Bytes): (r: map<string, Bytes>)
    ensures src in r && r[src] == (if src in blobs then blobs[src] else data)
    ensures forall n :: n != src ==> (n in r <==> n in blobs) && (n in blobs ==> r[n] == blobs[n])
  {
    if src in blobs then blobs else blobs[src := data]
  }

  /** The recorded failure, if any document failed. */
  function RecordFailure(state: map<string, FileState>, fileId: string, src: string, prefix: string,
                         failure: Option<DocStatus>): map<string, FileState> {
    match failure
    case None => state
    case Some(doc) => state[fileId := Failed(Some(src), Some(prefix), ErrorText(doc))]
  }

  /** The clean-up after a successful translation: nothing happens when the
      listing is empty; otherwise the first listed output is kept as the
      result and the source and every listed output are deleted. */
  ghost function Collected(s: Store, fileId: string, src: string, prefix: string, filename: string): Store {
    var listed := Listed(s.blobs, prefix);
    if listed == {} then s
    else Store(s.blobs - ({src} + listed), s.state[fileId := Succeeded(s.blobs[LeastOf(listed)], filename)])
  }

  /** What the block does with the translation outcome, once the source is
      in place and the request is made. */
  ghost function AfterOutcome(s: Store, fileId: string, src: string, outcome: TranslationOutcome, filename: string)
    : (t: Store)
    ensures t.state == s.state || fileId in t.state
  {
    var prefix := OutputPrefix(fileId);
    var merged := s.blobs + Placed(prefix, outcome.outputs);
    match outcome
    case Raised(message, _) => Store(merged, s.state[fileId := Failed(None, None, message)])
    case Completed(documents, _) =>
      var failure := LastFailure(documents);
      if failure.Some? then Store(merged, RecordFailure(s.state, fileId, src, prefix, failure))
      else Collected(Store(merged, s.state), fileId, src, prefix, filename)
  }

  /** The store once a recorded success is dropped and the source is in
      place. */
  function Uploaded(before: Store, fileId: string, upload: Upload): Store {
    Store(UploadOnce(before.blobs, SourceBlobName(fileId, upload.name), upload.data), ClearSuccess(before.state, fileId))
  }

  /** The container and the page state after the start button is pressed
      for `upload`, kept under `fileId`, to be translated into `langCode`. */
  ghost function AfterStart(before: Store, env: Env, fileId: string, upload: Upload, langCode: string)
    : (r: Store)
    ensures r.state == ClearSuccess(before.state, fileId) || fileId in r.state
  {
    var src := SourceBlobName(fileId, upload.name);
    var uploaded := Uploaded(before, fileId, upload);
    match Request(env, fileId, upload.name, langCode)
    case None => Store(uploaded.blobs, uploaded.state[fileId := Failed(None, None, IndexErrorMessage)])
    case Some(request) => AfterOutcome(uploaded, fileId, src, env.translate(request), FinalFilename(upload.name, langCode))
  }

  /** The page session: the container it works on and `processing_state`. */
  class TranslationSession {
    var blobs: map<string, Bytes>
    var processingState: map<string, FileState>

    /** A new session starts with no recorded outcomes. */
    constructor(container: map<string, Bytes>)
      ensures blobs == container && processingState == map[]
    {
      blobs := container;
      processingState := map[];
    }

    /** The start (or retry) button: upload the source unless it is already
        there, request the translation, then record the failure, or fetch
        the first output, delete the source and every output, and record the
        success. */
    method Start(env: Env, fileId: string, upload: Upload, langCode: string)
      requires UuidLike(fileId)
      modifies this
      ensures Store(blobs, processingState) == AfterStart(old(Store(blobs, processingState)), env, fileId, upload, langCode)
    {
      processingState := ClearSuccess(processingState, fileId);
      var src := SourceBlobName(fileId, upload.name);
      if src !in blobs {
        blobs := blobs[src := upload.data];
      }
      var request := Request(env, fileId, upload.name, langCode);
      if request.None? {
        processingState := processingState[fileId := Failed(None, None, IndexErrorMessage)];
        return;
      }
      HandleOutcome(fileId, src, env.translate(request.value), FinalFilename(upload.name, langCode));
    }

    /** Everything after the translation is requested: record the exception,
        or record the failed document, or collect the outputs. */
    method HandleOutcome(fileId: string, src: string, outcome: TranslationOutcome, filename: string)
      modifies this
      ensures Store(blobs, processingState) == AfterOutcome(old(Store(blobs, processingState)), fileId, src, outcome, filename)
    {
      var prefix := OutputPrefix(fileId);
      blobs := blobs + Placed(prefix, outcome.outputs);
      match outcome
      case Raised(message, _) =>
        processingState := processingState[fileId := Failed(None, None, message)];
      case Completed(documents, _) =>
        var success := RecordDocuments(documents, fileId, src, prefix);
        if success {
          CollectOutputs(fileId, src, prefix, filename);
        }
    }

    /** The loop over the documents: each one that did not succeed clears
        the success flag and overwrites the entry with its error. */
    method RecordDocuments(documents: seq<DocStatus>, fileId: string, src: string, prefix: string)
      returns (success: bool)
      modifies this
      ensures success <==> LastFailure(documents).None?
      ensures blobs == old(blobs)
      ensures processingState == RecordFailure(old(processingState), fileId, src, prefix, LastFailure(documents))
    {
      success := true;
      var i := 0;
      while i < |documents|
        invariant 0 <= i <= |documents|
        invariant blobs == old(blobs)
        invariant success <==> LastFailure(documents[..i]).None?
        invariant processingState == RecordFailure(old(processingState), fileId, src, prefix, LastFailure(documents[..i]))
      {
        assert documents[..i + 1][..i] == documents[..i];
        if documents[i].status != SucceededStatus {
          success := false;
          processingState := processingState[fileId := Failed(Some(src), Some(prefix), ErrorText(documents[i]))];
        }
        i := i + 1;
      }
      assert documents[..i] == documents;
    }

    /** `delete_blob` for each name in turn. */
    method DeleteAll(names: set<string>)
      modifies this
      ensures blobs == old(blobs) - names
      ensures processingState == old(processingState)
    {
      var remaining := names;
      while remaining != {}
        invariant remaining <= names
        invariant processingState == old(processingState)
        invariant blobs == old(blobs) - (names - remaining)
        decreases |remaining|
      {
        var n :| n in remaining;
        ghost var removed := names - remaining;
        blobs := blobs - {n};
        remaining := remaining - {n};
        assert names - remaining == removed + {n};
      }
      assert names - remaining == names;
    }

    /** Listing, downloading and deleting the outputs. */
    method CollectOutputs(fileId: string, src: string, prefix: string, filename: string)
      modifies this
      ensures Store(blobs, processingState) == Collected(old(Store(blobs, processingState)), fileId, src, prefix, filename)
    {
      var listed := Listed(blobs, prefix);
      if listed == {} {
        return;
      }
      var first := FirstListed(listed);
      LeastUnique(first, LeastOf(listed), listed);
      var data := blobs[first];
      ghost var merged := blobs;
      blobs := blobs - {src};
      DeleteAll(listed);
      assert blobs == merged - ({src} + listed);
      processingState := processingState[fileId := Succeeded(data, filename)];
    }
  }

  // Properties of a start
  // ---------------------------------------------------------------------

  predicate HasSucceeded(s: Store, fileId: string) {
    fileId in s.state && s.state[fileId].Succeeded?
  }

  /** The clean-up changes no entry but the file's own. */
  lemma CollectedElsewhere(s: Store, fileId: string, src: string, prefix: string, filename: string, other: string)
    requires other != fileId
    ensures var t := Collected(s, fileId, src, prefix, filename);
            (other in t.state <==> other in s.state) && (other in s.state ==> t.state[other] == s.state[other])
  {
  }

  /** Handling the outcome changes no entry but the file's own. */
  lemma OutcomeElsewhere(s: Store, fileId: string, src: string, outcome: TranslationOutcome, filename: string, other: string)
    requires other != fileId
    ensures var t := AfterOutcome(s, fileId, src, outcome, filename);
            (other in t.state <==> other in s.state) && (other in s.state ==> t.state[other] == s.state[other])
  {
    if outcome.Completed? && LastFailure(outcome.documents).None? {
      var merged := s.blobs + Placed(OutputPrefix(fileId), outcome.outputs);
      CollectedElsewhere(Store(merged, s.state), fileId, src, OutputPrefix(fileId), filename, other);
    }
  }

  /** Only the entry of the started file changes. */
  lemma OtherEntriesUnchanged(before: Store, env: Env, fileId: string, upload: Upload, langCode: string, other: string)
    requires other != fileId
    ensures var after := AfterStart(before, env, fileId, upload, langCode);
            (other in after.state <==> other in before.state) &&
            (other in before.state ==> after.state[other] == before.state[other])
  {
    var src := SourceBlobName(fileId, upload.name);
    var uploaded := Uploaded(before, fileId, upload);
    var request := Request(env, fileId, upload.name, langCode);
    if request.Some? {
      OutcomeElsewhere(uploaded, fileId, src, env.translate(request.value), FinalFilename(upload.name, langCode), other);
    }
  }

  /** The clean-up removes only the source and blobs under the prefix. */
  lemma CollectedBlobs(s: Store, fileId: string, src: string, prefix: string, filename: string, n: string)
    requires n != src && !StartsWith(n, prefix)
    ensures var t := Collected(s, fileId, src, prefix, filename);
            (n in t.blobs <==> n in s.blobs) && (n in s.blobs ==> t.blobs[n] == s.blobs[n])
  {
  }

  /** Handling the outcome touches only the source and blobs under the
      prefix. */
  lemma OutcomeBlobs(s: Store, fileId: string, src: string, outcome: TranslationOutcome, filename: string, n: string)
    requires n != src && !StartsWith(n, OutputPrefix(fileId))
    ensures var t := AfterOutcome(s, fileId, src, outcome, filename);
            (n in t.blobs <==> n in s.blobs) && (n in s.blobs ==> t.blobs[n] == s.blobs[n])
  {
    var merged := s.blobs + Placed(OutputPrefix(fileId), outcome.outputs);
    assert n !in Placed(OutputPrefix(fileId), outcome.outputs);
    if outcome.Completed? && LastFailure(outcome.documents).None? {
      CollectedBlobs(Store(merged, s.state), fileId, src, OutputPrefix(fileId), filename, n);
    }
  }

  /** Blobs outside the source name and the output prefix are never
      touched. */
  lemma OtherBlobsUnchanged(before: Store, env: Env, fileId: string, upload: Upload, langCode: string, n: string)
    requires n != SourceBlobName(fileId, upload.name) && !StartsWith(n, OutputPrefix(fileId))
    ensures var after := AfterStart(before, env, fileId, upload, langCode);
            (n in after.blobs <==> n in before.blobs) &&
            (n in before.blobs ==> after.blobs[n] == before.blobs[n])
  {
    var src := SourceBlobName(fileId, upload.name);
    var uploaded := Uploaded(before, fileId, upload);
    var request := Request(env, fileId, upload.name, langCode);
    if request.Some? {
      OutcomeBlobs(uploaded, fileId, src, env.translate(request.value), FinalFilename(upload.name, langCode), n);
    }
  }

  /** Once the request is built, a start is the upload followed by the
      handling of the service's answer. */
  lemma AfterRequest(before: Store, env: Env, fileId: string, upload: Upload, langCode: string)
    requires Request(env, fileId, upload.name, langCode).Some?
    ensures AfterStart(before, env, fileId, upload, langCode)
              == AfterOutcome(Uploaded(before, fileId, upload), fileId, SourceBlobName(fileId, upload.name),
                              env.translate(Request(env, fileId, upload.name, langCode).value),
                              FinalFilename(upload.name, langCode))
  {
  }

  /** When a document fails, its error is recorded with the source and the
      prefix, and nothing is deleted. */
  lemma FailedDocumentRecorded(before: Store, env: Env, fileId: string, upload: Upload, langCode: string,
                               documents: seq<DocStatus>, outputs: map<string, Bytes>, doc: DocStatus)
    requires Request(env, fileId, upload.name, langCode).Some?
    requires env.translate(Request(env, fileId, upload.name, langCode).value) == Completed(documents, outputs)
    requires LastFailure(documents) == Some(doc)
    ensures var after := AfterStart(before, env, fileId, upload, langCode);
            fileId in after.state &&
            after.state[fileId] == Failed(Some(SourceBlobName(fileId, upload.name)), Some(OutputPrefix(fileId)), ErrorText(doc)) &&
            after.blobs == Uploaded(before, fileId, upload).blobs + Placed(OutputPrefix(fileId), outputs)
  {
  }

  /** An exception records its text and nothing else, and deletes
      nothing: a container URL without `?` raises before anything is sent,
      and a translation that raises leaves whatever the service wrote. */
  lemma ExceptionRecorded(before: Store, env: Env, fileId: string, upload: Upload, langCode: string)
    requires Request(env, fileId, upload.name, langCode).None? ||
             env.translate(Request(env, fileId, upload.name, langCode).value).Raised?
    ensures var after := AfterStart(before, env, fileId, upload, langCode);
            var uploaded := Uploaded(before, fileId, upload);
            var request := Request(env, fileId, upload.name, langCode);
            var message := if request.None? then IndexErrorMessage else env.translate(request.value).message;
            after.state == uploaded.state[fileId := Failed(None, None, message)] &&
            (request.None? ==> after.blobs == uploaded.blobs) &&
            (request.Some? ==> after.blobs == uploaded.blobs + Placed(OutputPrefix(fileId), env.translate(request.value).outputs))
  {
  }

  /** A failed container signature ends the run with the index error. */
  lemma SentinelRecordsIndexError(before: Store, env: Env, fileId: string, upload: Upload, langCode: string)
    requires SignedContainerUrl(env.account, env.container, 1, env.now, env.sdk).None?
    ensures var after := AfterStart(before, env, fileId, upload, langCode);
            fileId in after.state && after.state[fileId] == Failed(None, None, IndexErrorMessage)
  {
    SentinelHasNoTarget(env, OutputPrefix(fileId));
  }

  /** A translation in which every document succeeded but nothing was
      written leaves the entry as it was (a success already dropped) and
      deletes nothing. */
  lemma EmptyListingKeepsEntry(before: Store, env: Env, fileId: string, upload: Upload, langCode: string,
                               documents: seq<DocStatus>, outputs: map<string, Bytes>)
    requires Request(env, fileId, upload.name, langCode).Some?
    requires env.translate(Request(env, fileId, upload.name, langCode).value) == Completed(documents, outputs)
    requires LastFailure(documents).None?
    requires Listed(Uploaded(before, fileId, upload).blobs + Placed(OutputPrefix(fileId), outputs), OutputPrefix(fileId)) == {}
    ensures var after := AfterStart(before, env, fileId, upload, langCode);
            after.state == ClearSuccess(before.state, fileId) &&
            after.blobs == Uploaded(before, fileId, upload).blobs + Placed(OutputPrefix(fileId), outputs)
  {
    AfterRequest(before, env, fileId, upload, langCode);
  }

  /** A translation in which every document succeeded and something is
      listed under the prefix records the first listed blob's bytes under
      the final file name, and deletes the source and every listed blob. */
  lemma SuccessRecorded(before: Store, env: Env, fileId: string, upload: Upload, langCode: string,
                        documents: seq<DocStatus>, outputs: map<string, Bytes>)
    requires Request(env, fileId, upload.name, langCode).Some?
    requires env.translate(Request(env, fileId, upload.name, langCode).value) == Completed(documents, outputs)
    requires LastFailure(documents).None?
    requires Listed(Uploaded(before, fileId, upload).blobs + Placed(OutputPrefix(fileId), outputs), OutputPrefix(fileId)) != {}
    ensures var after := AfterStart(before, env, fileId, upload, langCode);
            var merged := Uploaded(before, fileId, upload).blobs + Placed(OutputPrefix(fileId), outputs);
            var listed := Listed(merged, OutputPrefix(fileId));
            exists first :: IsLeast(first, listed) &&
              fileId in after.state &&
              after.state[fileId] == Succeeded(merged[first], FinalFilename(upload.name, langCode)) &&
              after.blobs == merged - ({SourceBlobName(fileId, upload.name)} + listed)
  {
    AfterRequest(before, env, fileId, upload, langCode);
    var merged := Uploaded(before, fileId, upload).blobs + Placed(OutputPrefix(fileId), outputs);
    var listed := Listed(merged, OutputPrefix(fileId));
    assert IsLeast(LeastOf(listed), listed);
  }

  /** A success recorded by the clean-up comes with the source and the
      listed blobs deleted. */
  lemma CollectedSuccess(s: Store, fileId: string, src: string, prefix: string, filename: string)
    requires !HasSucceeded(s, fileId)
    requires HasSucceeded(Collected(s, fileId, src, prefix, filename), fileId)
    ensures var t := Collected(s, fileId, src, prefix, filename);
            src !in t.blobs && (forall n :: n in t.blobs ==> !StartsWith(n, prefix)) &&
            t.state[fileId].filename == filename
  {
  }

  /** Only the clean-up records a success. */
  lemma OutcomeSuccess(s: Store, fileId: string, src: string, outcome: TranslationOutcome, filename: string)
    requires !HasSucceeded(s, fileId)
    requires HasSucceeded(AfterOutcome(s, fileId, src, outcome, filename), fileId)
    ensures var t := AfterOutcome(s, fileId, src, outcome, filename);
            src !in t.blobs && (forall n :: n in t.blobs ==> !StartsWith(n, OutputPrefix(fileId))) &&
            t.state[fileId].filename == filename
  {
    assert outcome.Completed? && LastFailure(outcome.documents).None?;
    var merged := s.blobs + Placed(OutputPrefix(fileId), outcome.outputs);
    CollectedSuccess(Store(merged, s.state), fileId, src, OutputPrefix(fileId), filename);
  }

  /** A recorded success means the source and everything under the output
      prefix are gone, and the download carries the final file name. */
  lemma SuccessLeavesNothingBehind(before: Store, env: Env, fileId: string, upload: Upload, langCode: string)
    requires HasSucceeded(AfterStart(before, env, fileId, upload, langCode), fileId)
    ensures var after := AfterStart(before, env, fileId, upload, langCode);
            SourceBlobName(fileId, upload.name) !in after.blobs &&
            (forall n :: n in after.blobs ==> !StartsWith(n, OutputPrefix(fileId))) &&
            after.state[fileId].filename == FinalFilename(upload.name, langCode)
  {
    var request := Request(env, fileId, upload.name, langCode);
    var uploaded := Uploaded(before, fileId, upload);
    assert !HasSucceeded(uploaded, fileId);
    assert request.Some?;
    OutcomeSuccess(uploaded, fileId, SourceBlobName(fileId, upload.name), env.translate(request.value),
                   FinalFilename(upload.name, langCode));
  }

  /** Handling an outcome that records no success keeps a source blob that
      lies outside the prefix. */
  lemma OutcomeKeepsSource(s: Store, fileId: string, src: string, outcome: TranslationOutcome, filename: string)
    requires !StartsWith(src, OutputPrefix(fileId)) && src in s.blobs
    requires !HasSucceeded(s, fileId)
    requires !HasSucceeded(AfterOutcome(s, fileId, src, outcome, filename), fileId)
    ensures var t := AfterOutcome(s, fileId, src, outcome, filename);
            src in t.blobs && t.blobs[src] == s.blobs[src]
  {
    assert src !in Placed(OutputPrefix(fileId), outcome.outputs);
  }

  /** Unless the run succeeds the source blob stays, holding the bytes of
      the first upload: a retry translates the same source. */
  lemma SourceKeptUnlessSucceeded(before: Store, env: Env, fileId: string, upload: Upload, langCode: string)
    requires UuidLike(fileId)
    requires !HasSucceeded(AfterStart(before, env, fileId, upload, langCode), fileId)
    ensures var after := AfterStart(before, env, fileId, upload, langCode);
            var src := SourceBlobName(fileId, upload.name);
            src in after.blobs &&
            after.blobs[src] == (if src in before.blobs then before.blobs[src] else upload.data)
  {
    var src := SourceBlobName(fileId, upload.name);
    SourceOutsideOutputs(fileId, upload.name);
    var request := Request(env, fileId, upload.name, langCode);
    var uploaded := Uploaded(before, fileId, upload);
    assert !HasSucceeded(uploaded, fileId);
    if request.Some? {
      OutcomeKeepsSource(uploaded, fileId, src, env.translate(request.value), FinalFilename(upload.name, langCode));
    }
  }
}
