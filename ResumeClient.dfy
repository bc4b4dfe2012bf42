/**
 * The client side of the upload/poll protocol (app.py): how the upload and
 * result keys are named, `fetch_job_results` turning any failure into None,
 * the bounded poll loop and the screen it leads to. The object store is given
 * as the snapshot each poll attempt sees.
 */
module ResumeClient {
  import opened Wrappers

  /** A value `json.loads` can return; numbers are kept as whole hundredths. */
  datatype Json =
    | JNull
    | JBool(b: bool)
    | JNum(hundredths: int)
    | JStr(s: string)
    | JArr(items: seq<Json>)
    | JObj(fields: seq<(string, Json)>)

  /** Python truthiness of a parsed value: null, false, 0 and empty strings, lists and objects are falsy. */
  predicate Truthy(v: Json)
  {
    match v
    case JNull => false
    case JBool(b) => b
    case JNum(n) => n != 0
    case JStr(s) => s != []
    case JArr(items) => items != []
    case JObj(fields) => fields != []
  }

  /** `if results:` where `results` is None or a parsed value. */
  predicate Ready(results: Option<Json>)
  {
    results.Some? && Truthy(results.value)
  }

  /**
   * The store as one read sees it: each key's body, parsed; a body that is not
   * valid JSON is None.
   */
  type Snapshot = map<string, Option<Json>>

  /** `f"{timestamp}_{uploaded_file.name}"`: the name both sides agree on. */
  function ResumeFilename(timestamp: string, name: string): (f: string)
    ensures |f| == |timestamp| + 1 + |name| && f[|timestamp|] == '_'
    ensures f[..|timestamp|] == timestamp && f[|timestamp| + 1..] == name
  {
    timestamp + "_" + name
  }

  /** `f"resumes/{resume_filename}"`: where the document is uploaded. */
  function UploadKey(timestamp: string, name: string): (k: string)
    ensures |k| >= 8 && k[..8] == "resumes/" && k[8..] == ResumeFilename(timestamp, name)
  {
    "resumes/" + ResumeFilename(timestamp, name)
  }

  /** `f"results/{resume_filename}.json"`: where the client looks for the result. */
  function PolledKey(resumeFilename: string): (k: string)
    ensures |k| == |resumeFilename| + 13
    ensures k[..8] == "results/" && k[8..|k| - 5] == resumeFilename && k[|k| - 5..] == ".json"
  {
    "results/" + resumeFilename + ".json"
  }

  /**
   * `fetch_job_results`: the parsed body at the polled key; None when the key is
   * missing or the body does not parse, since every exception is swallowed.
   * None here stands for "raised"; a body that parses to JSON `null` (Python's
   * `None` from `json.loads`) is `Some(JNull)`, which `Ready` treats the same way.
   */
  function FetchJobResults(store: Snapshot, resumeFilename: string): (r: Option<Json>)
    ensures r.None? <==> PolledKey(resumeFilename) !in store || store[PolledKey(resumeFilename)].None?
    ensures r.Some? ==> Some(r.value) == store[PolledKey(resumeFilename)]
  {
    var key := PolledKey(resumeFilename);
    if key in store then store[key] else None
  }

  /** Whether the attempt that sees `store` ends the poll. */
  predicate ReadyIn(store: Snapshot, resumeFilename: string)
  {
    Ready(FetchJobResults(store, resumeFilename))
  }

  /** A missing key, an unparsable body and an empty list all count as "not ready". */
  lemma NotReadyCases(store: Snapshot, resumeFilename: string)
    ensures PolledKey(resumeFilename) !in store ==> !ReadyIn(store, resumeFilename)
    ensures PolledKey(resumeFilename) in store && store[PolledKey(resumeFilename)] in {None, Some(JArr([]))} ==>
      !ReadyIn(store, resumeFilename)
    ensures PolledKey(resumeFilename) in store && store[PolledKey(resumeFilename)] == Some(JArr([])) ==>
      FetchJobResults(store, resumeFilename) == Some(JArr([]))
  {
  }

  /** `range(12)` */
  const MaxAttempts: nat := 12
  /** `time.sleep(5)`, in seconds */
  const PollInterval: nat := 5

  /**
   * The poll loop: before each of at most 12 attempts it sleeps once, then
   * fetches; it stops at the first ready result. `snapshots[k]` is the store as
   * attempt k sees it. `results` is what the last attempt fetched.
   */
  method PollForResults(snapshots: seq<Snapshot>, resumeFilename: string)
    returns (results: Option<Json>, attempts: nat, sleptSeconds: nat)
    requires |snapshots| == MaxAttempts
    ensures 1 <= attempts <= MaxAttempts
    ensures sleptSeconds == PollInterval * attempts
    ensures results == FetchJobResults(snapshots[attempts - 1], resumeFilename)
    ensures forall k :: 0 <= k < attempts - 1 ==> !ReadyIn(snapshots[k], resumeFilename)
    ensures Ready(results) || attempts == MaxAttempts
  {
    results := None;
    attempts := 0;
    sleptSeconds := 0;
    while attempts < MaxAttempts
      invariant 0 <= attempts <= MaxAttempts
      invariant sleptSeconds == PollInterval * attempts
      invariant forall k :: 0 <= k < attempts ==> !ReadyIn(snapshots[k], resumeFilename)
      invariant attempts > 0 ==> results == FetchJobResults(snapshots[attempts - 1], resumeFilename)
    {
      sleptSeconds := sleptSeconds + PollInterval;
      results := FetchJobResults(snapshots[attempts], resumeFilename);
      attempts := attempts + 1;
      if Ready(results) {
        break;
      }
    }
  }

  /** What the page ends up showing. */
  datatype Screen =
    | Recommended(jobs: Json)   // "Recommended Jobs" and one entry per job
    | StillProcessing           // the "still processing" message
    | UploadFailed              // "Upload failed" with the exception text

  /**
   * The button handler: upload under `resumes/<timestamp>_<name>`, then poll.
   * `uploaded` says whether the upload call returned.
   */
  method SubmitResume(timestamp: string, name: string, uploaded: bool, snapshots: seq<Snapshot>)
    returns (uploadKey: string, screen: Screen, attempts: nat)
    requires |snapshots| == MaxAttempts
    ensures uploadKey == UploadKey(timestamp, name)
    ensures !uploaded <==> screen == UploadFailed
    ensures !uploaded ==> attempts == 0
    ensures uploaded ==> 1 <= attempts <= MaxAttempts
    ensures uploaded ==>
      (screen.Recommended? <==> exists k :: 0 <= k < MaxAttempts && ReadyIn(snapshots[k], ResumeFilename(timestamp, name)))
    ensures screen.Recommended? ==>
      && Truthy(screen.jobs)
      && Some(screen.jobs) == FetchJobResults(snapshots[attempts - 1], ResumeFilename(timestamp, name))
      && forall k :: 0 <= k < attempts - 1 ==> !ReadyIn(snapshots[k], ResumeFilename(timestamp, name))
    ensures screen == StillProcessing ==>
      && attempts == MaxAttempts
      && forall k :: 0 <= k < MaxAttempts ==> !ReadyIn(snapshots[k], ResumeFilename(timestamp, name))
  {
    var resumeFilename := ResumeFilename(timestamp, name);
    uploadKey := UploadKey(timestamp, name);
    if !uploaded {
      return uploadKey, UploadFailed, 0;
    }
    var results, slept;
    results, attempts, slept := PollForResults(snapshots, resumeFilename);
    if Ready(results) {
      screen := Recommended(results.value);
    } else {
      screen := StillProcessing;
    }
  }
}
