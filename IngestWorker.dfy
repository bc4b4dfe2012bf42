/**
 * The non-I/O logic of `lambda_handler` (Lambda_function.py): which uploaded keys
 * are processed, how the OCR lines become one text, how one result record per
 * catalog job is built, the stable ranking by score and the result key.
 * Textract, Bedrock and S3 are replaced by what they answered (`Services`).
 */
module IngestWorker {
  import opened Wrappers
  import opened Strings
  import opened TextPipeline
  import opened JobCatalog

  // ---------------------------------------------------------------------------
  // Key filter and result key
  // ---------------------------------------------------------------------------

  /**
   * The filter of `lambda_handler`: the key starts with "resumes/" (case-sensitive)
   * and its lower-cased form ends with ".pdf".
   */
  predicate ShouldProcess(objectKey: string)
  {
    StartsWith(objectKey, "resumes/") && EndsWith(Lower(objectKey), ".pdf")
  }

  /** A key outside "resumes/" is skipped; the prefix test is case-sensitive. */
  lemma WrongPrefixSkipped()
    ensures !ShouldProcess("other/file.pdf")
    ensures !ShouldProcess("Resumes/cv.pdf")
  {
    assert "other/file.pdf"[0] != "resumes/"[0];
    assert "Resumes/cv.pdf"[0] != "resumes/"[0];
  }

  /** A key that does not end in ".pdf" is skipped. */
  lemma WrongExtensionSkipped()
    ensures !ShouldProcess("resumes/doc.txt")
  {
    var lowered := Lower("resumes/doc.txt");
    assert lowered[|lowered| - 1] == 't';
  }

  /** `s.split('/')[-1]`: the text after the last '/', or all of `s` when it has none. */
  function AfterLastSlash(s: string): (r: string)
    ensures '/' !in r
    ensures EndsWith(s, r)
    ensures |r| < |s| ==> s[|s| - |r| - 1] == '/'
  {
    if s == [] then []
    else if s[|s| - 1] == '/' then []
    else AfterLastSlash(s[..|s| - 1]) + [s[|s| - 1]]
  }

  /** The key the result list is written under: `results/<basename>.json`. */
  function ResultKey(objectKey: string): (k: string)
    ensures |k| >= 13 && StartsWith(k, "results/") && EndsWith(k, ".json")
    ensures '/' !in k[8..|k| - 5]
    ensures EndsWith(objectKey, k[8..|k| - 5])
    ensures k == "results/" + AfterLastSlash(objectKey) + ".json"
  {
    var base := AfterLastSlash(objectKey);
    var k := "results/" + base + ".json";
    assert k[8..|k| - 5] == base;
    k
  }

  // ---------------------------------------------------------------------------
  // OCR blocks to text
  // ---------------------------------------------------------------------------

  /** A block returned by OCR: its `BlockType` and its `Text`. */
  datatype Block = Block(blockType: string, text: string)

  /** The texts of the "LINE" blocks, in the order returned. */
  function LineTexts(blocks: seq<Block>): (r: seq<string>)
    ensures |r| <= |blocks|
    ensures forall t :: t in r <==> exists b :: b in blocks && b.blockType == "LINE" && b.text == t
  {
    if blocks == [] then []
    else (if blocks[0].blockType == "LINE" then [blocks[0].text] else []) + LineTexts(blocks[1..])
  }

  /** `"\n".join(block["Text"] for block in blocks if block["BlockType"] == "LINE")` */
  function JoinLines(blocks: seq<Block>): string
  {
    Join("\n", LineTexts(blocks))
  }

  lemma {:induction false} LineTextsAppend(a: seq<Block>, b: seq<Block>)
    ensures LineTexts(a + b) == LineTexts(a) + LineTexts(b)
  {
    if a != [] {
      assert (a + b)[1..] == a[1..] + b;
      LineTextsAppend(a[1..], b);
    } else {
      assert a + b == b;
    }
  }

  /**
   * Only LINE blocks contribute: a block of another type changes nothing, a LINE
   * block adds its text as the last line.
   */
  lemma LineTextsOfAppended(blocks: seq<Block>, b: Block)
    ensures LineTexts(blocks + [b]) ==
      LineTexts(blocks) + (if b.blockType == "LINE" then [b.text] else [])
  {
    LineTextsAppend(blocks, [b]);
  }

  /** The position of the first `c` in `s`. */
  function IndexOf(s: string, c: char): (i: nat)
    requires c in s
    ensures i < |s| && s[i] == c
    ensures forall k :: 0 <= k < i ==> s[k] != c
  {
    if s[0] == c then 0 else 1 + IndexOf(s[1..], c)
  }

  /** `s.split(sep)` for a one-character separator. */
  function SplitOn(s: string, sep: char): (r: seq<string>)
    decreases |s|
  {
    if sep !in s then [s]
    else
      var i := IndexOf(s, sep);
      [s[..i]] + SplitOn(s[i + 1..], sep)
  }

  /**
   * Splitting the joined text on newlines gives back the LINE texts, as long as
   * there is at least one and none of them holds a newline.
   */
  lemma {:induction false} SplitJoinRoundTrip(parts: seq<string>)
    requires parts != []
    requires forall p :: p in parts ==> '\n' !in p
    ensures SplitOn(Join("\n", parts), '\n') == parts
  {
    if |parts| > 1 {
      var rest := Join("\n", parts[1..]);
      var s := parts[0] + "\n" + rest;
      assert s[|parts[0]|] == '\n';
      assert s[..|parts[0]|] == parts[0];
      var i := IndexOf(s, '\n');
      assert i <= |parts[0]|;
      assert forall k :: 0 <= k < |parts[0]| ==> s[k] == parts[0][k] && parts[0][k] in parts[0];
      assert i == |parts[0]|;
      assert s[|parts[0]| + 1..] == rest;
      SplitJoinRoundTrip(parts[1..]);
    }
  }

  lemma JoinLinesRoundTrip(blocks: seq<Block>)
    requires LineTexts(blocks) != []
    requires forall p :: p in LineTexts(blocks) ==> '\n' !in p
    ensures SplitOn(JoinLines(blocks), '\n') == LineTexts(blocks)
  {
    SplitJoinRoundTrip(LineTexts(blocks));
  }

  // ---------------------------------------------------------------------------
  // Result records
  // ---------------------------------------------------------------------------

  /**
   * `round(cosine_similarity(...) * 100, 2)` as a whole number of hundredths of
   * a percent; the floating-point computation itself is not modelled.
   */
  type Score = int

  /** One element of the result list. */
  datatype MatchResult = MatchResult(
    jobTitle: string,
    company: string,
    location: string,
    salary: string,
    matchPercentage: Score,
    matchedSkills: seq<string>,
    careerPath: string)

  /** `resume_skills[:5]` */
  function TopSkills(skills: seq<string>): (r: seq<string>)
    ensures |r| <= 5 && r <= skills
    ensures |skills| >= 5 ==> |r| == 5
    ensures |skills| < 5 ==> r == skills
  {
    if |skills| <= 5 then skills else skills[..5]
  }

  /**
   * What a record's `matched_skills` can hold: at most five distinct vocabulary
   * terms, each found in the text, in vocabulary order.
   */
  lemma MatchedSkillsFromVocabulary(text: string)
    ensures var top := TopSkills(ExtractSkills(text));
      && |top| <= 5 && IsSubsequence(top, SkillKeywords) && Distinct(top)
      && forall w :: w in top ==> w in SkillKeywords && Contains(Lower(text), w)
  {
    var skills := ExtractSkills(text);
    PrefixOfSubsequence(TopSkills(skills), skills, SkillKeywords);
  }

  /** The dictionary appended for one catalog job. */
  function MatchRecord(job: JobPosting, score: Score, skills: seq<string>): MatchResult
  {
    MatchResult(job.title, job.company, job.location, job.salary, score,
                TopSkills(skills), CareerPathFor(job.title))
  }

  /** The unsorted list the loop builds when every job was scored. */
  function Assembled(skills: seq<string>, scores: seq<Score>): (r: seq<MatchResult>)
    requires |scores| == |JobDescriptions|
  {
    seq(|JobDescriptions|, i requires 0 <= i < |JobDescriptions| => MatchRecord(JobDescriptions[i], scores[i], skills))
  }

  function Values(scores: seq<Option<Score>>): (r: seq<Score>)
    requires forall i :: 0 <= i < |scores| ==> scores[i].Some?
    ensures |r| == |scores| && forall i :: 0 <= i < |scores| ==> r[i] == scores[i].value
  {
    seq(|scores|, i requires 0 <= i < |scores| => scores[i].value)
  }

  /**
   * The loop over `JOB_DESCRIPTIONS`: one record per job, in catalog order.
   * `scores[i]` is None when embedding job i's description or scoring it raised;
   * the loop then stops and nothing is returned.
   */
  method AssembleMatches(skills: seq<string>, scores: seq<Option<Score>>) returns (r: Option<seq<MatchResult>>)
    requires |scores| == |JobDescriptions|
    ensures r.None? <==> exists i :: 0 <= i < |scores| && scores[i].None?
    ensures r.Some? ==> |r.value| == |JobDescriptions| && forall i :: 0 <= i < |JobDescriptions| ==>
      var m, job := r.value[i], JobDescriptions[i];
      && m.jobTitle == job.title && m.company == job.company
      && m.location == job.location && m.salary == job.salary
      && m.matchPercentage == scores[i].value
      && m.matchedSkills == TopSkills(skills)
      && m.careerPath == CareerPathFor(job.title)
    ensures r.Some? ==> r.value == Assembled(skills, Values(scores))
  {
    var jobMatches: seq<MatchResult> := [];
    var i := 0;
    while i < |JobDescriptions|
      invariant 0 <= i <= |JobDescriptions|
      invariant forall k :: 0 <= k < i ==> scores[k].Some?
      invariant |jobMatches| == i
      invariant forall k :: 0 <= k < i ==> jobMatches[k] == MatchRecord(JobDescriptions[k], scores[k].value, skills)
    {
      if scores[i].None? {
        return None;
      }
      jobMatches := jobMatches + [MatchRecord(JobDescriptions[i], scores[i].value, skills)];
      i := i + 1;
    }
    r := Some(jobMatches);
    assert jobMatches == Assembled(skills, Values(scores));
  }

  // ---------------------------------------------------------------------------
  // Ranking: `job_matches.sort(key=lambda x: x["match_percentage"], reverse=True)`
  // ---------------------------------------------------------------------------

  predicate SortedByScoreDesc(s: seq<MatchResult>)
  {
    forall i, j :: 0 <= i < j < |s| ==> s[i].matchPercentage >= s[j].matchPercentage
  }

  /** The records of `s` that score exactly `v`, in their order in `s`. */
  function WithScore(s: seq<MatchResult>, v: Score): seq<MatchResult>
  {
    if s == [] then []
    else (if s[0].matchPercentage == v then [s[0]] else []) + WithScore(s[1..], v)
  }

  lemma {:induction false} WithScoreAppend(a: seq<MatchResult>, b: seq<MatchResult>, v: Score)
    ensures WithScore(a + b, v) == WithScore(a, v) + WithScore(b, v)
  {
    if a != [] {
      assert (a + b)[1..] == a[1..] + b;
      WithScoreAppend(a[1..], b, v);
    } else {
      assert a + b == b;
    }
  }

  lemma SwapKeepsGroup(s: seq<MatchResult>, j: nat, v: Score)
    requires j + 1 < |s| && s[j].matchPercentage != s[j + 1].matchPercentage
    ensures WithScore(s[j := s[j + 1]][j + 1 := s[j]], v) == WithScore(s, v)
  {
    var pre, post := s[..j], s[j + 2..];
    var x, y := s[j], s[j + 1];
    assert s == (pre + [x, y]) + post;
    assert s[j := y][j + 1 := x] == (pre + [y, x]) + post;
    WithScoreAppend(pre + [x, y], post, v);
    WithScoreAppend(pre, [x, y], v);
    WithScoreAppend(pre + [y, x], post, v);
    WithScoreAppend(pre, [y, x], v);
    assert [x, y][1..] == [y];
    assert [y, x][1..] == [x];
  }

  /** Swapping two neighbours with different scores keeps every equal-score group in order. */
  lemma SwapKeepsGroups(s: seq<MatchResult>, j: nat)
    requires j + 1 < |s| && s[j].matchPercentage != s[j + 1].matchPercentage
    ensures forall v :: WithScore(s[j := s[j + 1]][j + 1 := s[j]], v) == WithScore(s, v)
  {
    forall v ensures WithScore(s[j := s[j + 1]][j + 1 := s[j]], v) == WithScore(s, v) {
      SwapKeepsGroup(s, j, v);
    }
  }

  lemma {:induction false} CountInGroup(s: seq<MatchResult>, x: MatchResult)
    ensures multiset(s)[x] == multiset(WithScore(s, x.matchPercentage))[x]
  {
    if s != [] {
      CountInGroup(s[1..], x);
      assert s == [s[0]] + s[1..];
    }
  }

  /** Keeping every equal-score group intact makes the result a permutation. */
  lemma GroupsDeterminePermutation(s: seq<MatchResult>, t: seq<MatchResult>)
    requires forall v :: WithScore(s, v) == WithScore(t, v)
    ensures multiset(s) == multiset(t)
  {
    forall x ensures multiset(s)[x] == multiset(t)[x] {
      CountInGroup(s, x);
      CountInGroup(t, x);
    }
  }

  /**
   * The insertion loop's ordering invariant: apart from the moving record at
   * `j`, the first `i + 1` records are ranked, and the moving record outscores
   * every record already behind it.
   */
  ghost predicate Inserting(s: seq<MatchResult>, i: nat, j: nat)
    requires j <= i < |s|
  {
    && (forall k, l :: 0 <= k < l <= i && k != j && l != j ==> s[k].matchPercentage >= s[l].matchPercentage)
    && (forall l :: j < l <= i ==> s[j].matchPercentage > s[l].matchPercentage)
  }

  /** Moving the record at `j` one place left past a lower score keeps the loop invariant. */
  lemma InsertingStep(s: seq<MatchResult>, i: nat, j: nat)
    requires 0 < j <= i < |s| && Inserting(s, i, j)
    requires s[j - 1].matchPercentage < s[j].matchPercentage
    ensures Inserting(s[j - 1 := s[j]][j := s[j - 1]], i, j - 1)
  {
    var t := s[j - 1 := s[j]][j := s[j - 1]];
    forall k, l | 0 <= k < l <= i && k != j - 1 && l != j - 1
      ensures t[k].matchPercentage >= t[l].matchPercentage
    {
      if l == j {
        assert t[l] == s[j - 1];
      } else if k == j {
        assert t[k] == s[j - 1];
      } else {
        assert t[k] == s[k] && t[l] == s[l];
      }
    }
    forall l | j - 1 < l <= i ensures t[j - 1].matchPercentage > t[l].matchPercentage {
      if l == j {
        assert t[l] == s[j - 1];
      } else {
        assert t[l] == s[l];
      }
    }
  }

  /** When the moving record meets an equal or higher score, the first `i + 1` records are ranked. */
  lemma InsertingDone(s: seq<MatchResult>, i: nat, j: nat)
    requires j <= i < |s| && Inserting(s, i, j)
    requires j == 0 || s[j - 1].matchPercentage >= s[j].matchPercentage
    ensures SortedByScoreDesc(s[..i + 1])
  {
    var p := s[..i + 1];
    forall k, l | 0 <= k < l < |p| ensures p[k].matchPercentage >= p[l].matchPercentage {
      if k == j || l != j {
        assert p[k] == s[k] && p[l] == s[l];
      } else if k < j - 1 {
        assert s[k].matchPercentage >= s[j - 1].matchPercentage;
      }
    }
  }

  /**
   * One insertion step: the record at `i` moves left past the records with a
   * strictly lower score, so the first `i + 1` records end up ranked.
   */
  method InsertAt(a: array<MatchResult>, i: nat)
    requires i < a.Length && SortedByScoreDesc(a[..i])
    modifies a
    ensures SortedByScoreDesc(a[..i + 1])
    ensures forall v :: WithScore(a[..], v) == WithScore(old(a[..]), v)
    ensures a[i + 1..] == old(a[i + 1..])
  {
    var j := i;
    assert Inserting(a[..], i, j) by {
      assert forall k :: 0 <= k < i ==> a[..i][k] == a[k];
    }
    while j > 0 && a[j - 1].matchPercentage < a[j].matchPercentage
      invariant 0 <= j <= i
      invariant Inserting(a[..], i, j)
      invariant forall v :: WithScore(a[..], v) == WithScore(old(a[..]), v)
      invariant a[i + 1..] == old(a[i + 1..])
    {
      ghost var before := a[..];
      SwapKeepsGroups(before, j - 1);
      InsertingStep(before, i, j);
      a[j - 1], a[j] := a[j], a[j - 1];
      assert a[..] == before[j - 1 := before[j]][j := before[j - 1]];
      j := j - 1;
    }
    InsertingDone(a[..], i, j);
  }

  /**
   * Python's stable sort, descending by score, done in place as an insertion
   * sort: no record ever passes one with an equal score.
   */
  method SortByScore(a: array<MatchResult>)
    modifies a
    ensures SortedByScoreDesc(a[..])
    ensures forall v :: WithScore(a[..], v) == WithScore(old(a[..]), v)
    ensures multiset(a[..]) == multiset(old(a[..]))
  {
    var i := 0;
    while i < a.Length
      invariant 0 <= i <= a.Length
      invariant SortedByScoreDesc(a[..i])
      invariant forall v :: WithScore(a[..], v) == WithScore(old(a[..]), v)
    {
      InsertAt(a, i);
      i := i + 1;
    }
    assert a[..a.Length] == a[..];
    GroupsDeterminePermutation(a[..], old(a[..]));
  }

  // ---------------------------------------------------------------------------
  // The handler
  // ---------------------------------------------------------------------------

  /**
   * `ranked` is `unsorted` put in descending score order, records with equal
   * scores keeping their relative order.
   */
  ghost predicate StablyRanked(ranked: seq<MatchResult>, unsorted: seq<MatchResult>)
  {
    && SortedByScoreDesc(ranked)
    && (forall v :: WithScore(ranked, v) == WithScore(unsorted, v))
    && multiset(ranked) == multiset(unsorted)
  }

  /** Reordering the assembled records keeps their number and what every record says. */
  lemma RankedRecords(ranked: seq<MatchResult>, skills: seq<string>, scores: seq<Score>)
    requires |scores| == |JobDescriptions|
    requires multiset(ranked) == multiset(Assembled(skills, scores))
    ensures |ranked| == |JobDescriptions|
    ensures forall m :: m in ranked ==>
      m.matchedSkills == TopSkills(skills) && m.careerPath == CareerPathFor(m.jobTitle)
  {
    var unsorted := Assembled(skills, scores);
    assert |ranked| == |multiset(ranked)|;
    forall m | m in ranked
      ensures m.matchedSkills == TopSkills(skills) && m.careerPath == CareerPathFor(m.jobTitle)
    {
      assert m in multiset(unsorted);
    }
  }

  /**
   * The matching step for a document with text: skills from the whole cleaned
   * text, one record per job, then the ranking. None when an embedding call
   * (the resume's, or any job's) raised.
   */
  method MatchResume(cleanedText: string, resumeEmbedded: bool, jobScores: seq<Option<Score>>)
    returns (r: Option<seq<MatchResult>>)
    requires |jobScores| == |JobDescriptions|
    ensures r.Some? <==> resumeEmbedded && forall i :: 0 <= i < |jobScores| ==> jobScores[i].Some?
    ensures r.Some? ==> StablyRanked(r.value, Assembled(ExtractSkills(cleanedText), Values(jobScores)))
  {
    if !resumeEmbedded {
      return None;
    }
    var resumeSkills := ExtractSkills(cleanedText);
    var assembled := AssembleMatches(resumeSkills, jobScores);
    if assembled.None? {
      return None;
    }
    var unsorted := assembled.value;
    var jobMatches := new MatchResult[|unsorted|](i requires 0 <= i < |unsorted| => unsorted[i]);
    assert jobMatches[..] == unsorted;
    SortByScore(jobMatches);
    r := Some(jobMatches[..]);
  }

  /** Why an invocation raised. */
  datatype HandlerError =
    | EmptyDocument   // `chunks[0]` on a document whose cleaned text is empty (IndexError)
    | ServiceError    // an external call (Textract, Bedrock, S3) or a job's score computation raised

  /**
   * The end of one invocation: `Skipped` and `Persisted` both return status 200;
   * only `Persisted` has written the result object. `Failed` re-raises.
   */
  datatype HandlerOutcome =
    | Skipped
    | Persisted(resultKey: string, matches: seq<MatchResult>)
    | Failed(error: HandlerError)

  /** What the cloud services answered during one invocation. */
  datatype Services = Services(
    ocr: Option<seq<Block>>,          // the blocks, or None when the OCR call raised
    resumeEmbedded: bool,             // the resume's embedding call returned
    jobScores: seq<Option<Score>>,    // per catalog job: its score, or None when that job's embedding or similarity raised
    stored: bool)                     // the result write returned

  /** The text the worker matches: the LINE texts joined, then cleaned. */
  function ResumeText(blocks: seq<Block>): string
  {
    CleanText(JoinLines(blocks))
  }

  /** Every service call of a processed document returned and the document has text. */
  predicate AllSucceeded(s: Services)
  {
    && s.ocr.Some? && ResumeText(s.ocr.value) != []
    && s.resumeEmbedded
    && (forall i :: 0 <= i < |s.jobScores| ==> s.jobScores[i].Some?)
    && s.stored
  }

  method LambdaHandler(objectKey: string, services: Services) returns (out: HandlerOutcome)
    requires |services.jobScores| == |JobDescriptions|
    ensures out.Skipped? <==> !ShouldProcess(objectKey)
    ensures ShouldProcess(objectKey) && services.ocr.None? ==> out == Failed(ServiceError)
    ensures ShouldProcess(objectKey) && services.ocr.Some? && ResumeText(services.ocr.value) == [] ==>
      out == Failed(EmptyDocument)
    ensures out.Failed? ==>
      (out.error == EmptyDocument <==> services.ocr.Some? && ResumeText(services.ocr.value) == [])
    ensures out.Persisted? <==> ShouldProcess(objectKey) && AllSucceeded(services)
    ensures out.Persisted? ==>
      var skills := ExtractSkills(ResumeText(services.ocr.value));
      && out.resultKey == ResultKey(objectKey)
      && StablyRanked(out.matches, Assembled(skills, Values(services.jobScores)))
      && |out.matches| == |JobDescriptions|
      && forall m :: m in out.matches ==>
           && m.matchedSkills == TopSkills(skills)
           && m.careerPath == CareerPathFor(m.jobTitle)
  {
    if !ShouldProcess(objectKey) {
      return Skipped;
    }
    if services.ocr.None? {
      return Failed(ServiceError);
    }
    var fullText := JoinLines(services.ocr.value);
    var cleanedText := CleanText(fullText);
    var chunks := Chunks(cleanedText, ChunkSize);
    ChunksEmptyIff(cleanedText, ChunkSize);
    if |chunks| == 0 {
      return Failed(EmptyDocument);
    }
    var jobMatches := MatchResume(cleanedText, services.resumeEmbedded, services.jobScores);
    if jobMatches.None? {
      return Failed(ServiceError);
    }
    var resultKey := ResultKey(objectKey);
    if !services.stored {
      return Failed(ServiceError);
    }
    out := Persisted(resultKey, jobMatches.value);
    RankedRecords(out.matches, ExtractSkills(cleanedText), Values(services.jobScores));
  }
}
