/**
 * Facts that need both sides of the protocol: the worker (Lambda_function.py)
 * writes its result where the client (app.py) polls for it, and only uploads
 * whose file name ends in ".pdf" are processed at all.
 */
module Protocol {
  import opened Wrappers
  import opened Strings
  import opened IngestWorker
  import opened ResumeClient

  /** The last path segment of `prefix + name` is `name` when `prefix` ends in '/' and `name` has none. */
  lemma {:induction false} LastSegmentOfSlashFree(prefix: string, name: string)
    requires prefix != [] && prefix[|prefix| - 1] == '/' && '/' !in name
    ensures AfterLastSlash(prefix + name) == name
  {
    var s := prefix + name;
    var r := AfterLastSlash(s);
    forall k | |prefix| <= k < |s| ensures s[k] != '/' {
      assert s[k] == name[k - |prefix|];
    }
    SlashFreeTail(s, r);
    assert s[|prefix| - 1] == '/';
    assert |r| == |name|;
    assert r == s[|prefix|..] == name;
  }

  /** No character of the last segment's span in `s` is a '/'. */
  lemma SlashFreeTail(s: string, r: string)
    requires '/' !in r && |r| <= |s| && s[|s| - |r|..] == r
    ensures forall k :: |s| - |r| <= k < |s| ==> s[k] != '/'
  {
    var start := |s| - |r|;
    assert s[start..] == r;
    forall k | start <= k < |s| ensures s[k] != '/' {
      var m := k - start;
      assert s[start..][m] == s[k];
      assert r[m] in r;
    }
  }

  /** When `name` holds a '/', the last path segment is strictly shorter than `name`. */
  lemma {:induction false} LastSegmentOfSlashed(prefix: string, name: string)
    requires '/' in name
    ensures |AfterLastSlash(prefix + name)| < |name|
  {
    var s := prefix + name;
    var r := AfterLastSlash(s);
    var i :| 0 <= i < |name| && name[i] == '/';
    assert s[|prefix| + i] == '/';
    SlashFreeTail(s, r);
  }

  /**
   * The key the client polls is the key the worker writes for the same upload
   * exactly when the uploaded file name (after the timestamp) contains no '/'.
   */
  lemma PolledKeyIsWrittenKey(timestamp: string, name: string)
    ensures ResultKey(UploadKey(timestamp, name)) == PolledKey(ResumeFilename(timestamp, name))
        <==> '/' !in ResumeFilename(timestamp, name)
  {
    var f := ResumeFilename(timestamp, name);
    assert UploadKey(timestamp, name) == "resumes/" + f;
    if '/' !in f {
      LastSegmentOfSlashFree("resumes/", f);
    } else {
      LastSegmentOfSlashed("resumes/", f);
      assert |ResultKey(UploadKey(timestamp, name))| < |PolledKey(f)|;
    }
  }

  /** The timestamp is digits only, so only the uploaded name can break the key agreement. */
  lemma PolledKeyIsWrittenKeyForDigitTimestamp(timestamp: string, name: string)
    requires forall i :: 0 <= i < |timestamp| ==> '0' <= timestamp[i] <= '9'
    ensures ResultKey(UploadKey(timestamp, name)) == PolledKey(ResumeFilename(timestamp, name))
        <==> '/' !in name
  {
    PolledKeyIsWrittenKey(timestamp, name);
    assert ResumeFilename(timestamp, name) == timestamp + "_" + name;
    SlashOnlyInName(timestamp, name);
  }

  /** A '/' in `<timestamp>_<name>` comes from the name when the timestamp is digits only. */
  lemma SlashOnlyInName(timestamp: string, name: string)
    requires forall i :: 0 <= i < |timestamp| ==> '0' <= timestamp[i] <= '9'
    ensures '/' in timestamp + "_" + name <==> '/' in name
  {
    var f := timestamp + "_" + name;
    if '/' in name {
      var i :| 0 <= i < |name| && name[i] == '/';
      assert f[|timestamp| + 1 + i] == '/';
    }
    forall j | 0 <= j <= |timestamp| ensures f[j] != '/' {
      if j < |timestamp| {
        assert f[j] == timestamp[j];
      } else {
        assert f[j] == '_';
      }
    }
    if '/' in f {
      var j :| 0 <= j < |f| && f[j] == '/';
      assert f[j] == name[j - |timestamp| - 1];
    }
  }

  /**
   * An upload passes the worker's filter exactly when the lower-cased uploaded
   * name ends in ".pdf": the prefix is always right, and ".pdf" has no '_'.
   */
  lemma UploadPassesFilter(timestamp: string, name: string)
    ensures ShouldProcess(UploadKey(timestamp, name)) <==> EndsWith(Lower(name), ".pdf")
  {
    var head := "resumes/" + timestamp + "_";
    assert UploadKey(timestamp, name) == head + name;
    FilterAfterUnderscore(head, name);
  }

  /** The filter on `head + name` where `head` is `resumes/`, anything, then '_'. */
  lemma FilterAfterUnderscore(head: string, name: string)
    requires |head| >= 9 && head[..8] == "resumes/" && head[|head| - 1] == '_'
    ensures ShouldProcess(head + name) <==> EndsWith(Lower(name), ".pdf")
  {
    assert (head + name)[..8] == head[..8];
    LowerAppend(head, name);
    var lh := Lower(head);
    assert lh[|lh| - 1] == LowerChar('_') == '_';
    SuffixPastUnderscore(lh, Lower(name));
  }

  /** ".pdf" has no '_', so a suffix test on `h + t` with `h` ending in '_' only sees `t`. */
  lemma SuffixPastUnderscore(h: string, t: string)
    requires |h| >= 1 && h[|h| - 1] == '_'
    ensures EndsWith(h + t, ".pdf") <==> EndsWith(t, ".pdf")
  {
    var k := h + t;
    if |t| >= 4 {
      assert k[|k| - 4..] == t[|t| - 4..];
    } else if |k| >= 4 {
      assert k[|k| - |t| - 1] == '_';
      assert k[|k| - 4..][4 - |t| - 1] == '_';
    }
  }

  /** `json.dumps(job_matches)` as the value the client's `json.loads` gets back. */
  function ResultDocument(matches: seq<MatchResult>): (doc: Json)
    ensures doc.JArr? && |doc.items| == |matches|
  {
    JArr(seq(|matches|, i requires 0 <= i < |matches| => RecordJson(matches[i])))
  }

  function RecordJson(m: MatchResult): Json
  {
    JObj([
      ("job_title", JStr(m.jobTitle)),
      ("company", JStr(m.company)),
      ("location", JStr(m.location)),
      ("salary", JStr(m.salary)),
      ("match_percentage", JNum(m.matchPercentage)),
      ("matched_skills", JArr(seq(|m.matchedSkills|, i requires 0 <= i < |m.matchedSkills| => JStr(m.matchedSkills[i])))),
      ("career_path", JStr(m.careerPath))
    ])
  }

  /**
   * Once the worker has persisted a result for the upload and a poll attempt sees
   * it, that attempt is ready: the ten-record list is never the falsy empty list.
   */
  lemma PersistedResultIsReady(
    timestamp: string, name: string, objectKey: string, out: HandlerOutcome, store: Snapshot)
    requires objectKey == UploadKey(timestamp, name) && '/' !in ResumeFilename(timestamp, name)
    requires out.Persisted? && out.resultKey == ResultKey(objectKey)
    requires |out.matches| == |JobCatalog.JobDescriptions|
    requires out.resultKey in store && store[out.resultKey] == Some(ResultDocument(out.matches))
    ensures ReadyIn(store, ResumeFilename(timestamp, name))
  {
    PolledKeyIsWrittenKey(timestamp, name);
    JobCatalog.CatalogTitlesDistinct();
  }
}
