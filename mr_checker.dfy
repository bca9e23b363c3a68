/**
 * The matching logic of python/gitlab-mr-checker.py, which looks for
 * pipelines on the default branch whose commit did not come through a merge
 * request: a table from commit sha to merge-request iid is built from the
 * merge requests, each pipeline's commit is looked up in it (directly, or
 * through the parents of a merge commit), and each pipeline is reported as
 * found, as an unreviewed completed pipeline, or as an unreviewed pipeline
 * that did not complete. The HTTP responses and git objects are records.
 */
module MrChecker {
  import opened Wrappers

  type Sha = string

  /** The fields of one merge request's details that the script reads. */
  datatype MergeRequest = MergeRequest(iid: int, headSha: Sha, state: string, mergeCommitSha: Option<Sha>)

  /** A commit: its sha and its parents' shas, in order. */
  datatype Commit = Commit(sha: Sha, parents: seq<Sha>)

  /** A pipeline with its commit and the commit time (seconds since the epoch). */
  datatype Pipeline = Pipeline(status: string, webUrl: string, commit: Commit, committedAt: int)

  /** The log level a pipeline is reported at: found in an MR, or not (completed / not completed). */
  datatype Finding = FoundInMr(iid: int) | NoMrCompleted | NoMrIncomplete

  datatype PipelineReport = PipelineReport(finding: Finding, webUrl: string)

  // ---------------------------------------------------------------------
  // mr_heads
  // ---------------------------------------------------------------------

  /**
   * `mr` writes an entry for `sha`: its head sha always, its merge commit
   * sha when it is merged.
   */
  predicate Registers(mr: MergeRequest, sha: Sha)
  {
    mr.headSha == sha || (mr.state == "merged" && mr.mergeCommitSha == Some(sha))
  }

  /** The table after one merge request's entries are written into `h`. */
  function AddMr(h: map<Sha, int>, mr: MergeRequest): map<Sha, int>
  {
    var h1 := h[mr.headSha := mr.iid];
    if mr.state == "merged" && mr.mergeCommitSha.Some? then h1[mr.mergeCommitSha.value := mr.iid] else h1
  }

  /** `mr_heads` after the merge requests `mrs` were visited in order. */
  function MrHeads(mrs: seq<MergeRequest>): (h: map<Sha, int>)
    // nothing written later overwrites the last merge request's head sha
    ensures mrs != [] ==> mrs[|mrs| - 1].headSha in h && h[mrs[|mrs| - 1].headSha] == mrs[|mrs| - 1].iid
  {
    if mrs == [] then map[] else AddMr(MrHeads(mrs[..|mrs| - 1]), mrs[|mrs| - 1])
  }

  /** Writing one merge request's entries adds the shas it registers, with its iid. */
  lemma AddMrEntry(h: map<Sha, int>, mr: MergeRequest, sha: Sha)
    ensures sha in AddMr(h, mr) <==> sha in h || Registers(mr, sha)
    ensures Registers(mr, sha) ==> AddMr(h, mr)[sha] == mr.iid
    ensures !Registers(mr, sha) && sha in h ==> AddMr(h, mr)[sha] == h[sha]
  {
  }

  /**
   * A sha is a key of the table exactly when some merge request registers it,
   * and it maps to the iid of the LAST one that does (later assignments
   * overwrite earlier ones).
   */
  lemma {:induction false} MrHeadsMeaning(mrs: seq<MergeRequest>, sha: Sha)
    ensures sha in MrHeads(mrs) <==> exists i :: 0 <= i < |mrs| && Registers(mrs[i], sha)
    ensures sha in MrHeads(mrs) ==>
      exists i :: 0 <= i < |mrs| && Registers(mrs[i], sha) && MrHeads(mrs)[sha] == mrs[i].iid
        && forall j :: i < j < |mrs| ==> !Registers(mrs[j], sha)
  {
    if mrs != [] {
      var n := |mrs| - 1;
      var front := mrs[..n];
      MrHeadsMeaning(front, sha);
      AddMrEntry(MrHeads(front), mrs[n], sha);
      assert MrHeads(mrs) == AddMr(MrHeads(front), mrs[n]);
      if Registers(mrs[n], sha) {
        assert MrHeads(mrs)[sha] == mrs[n].iid;
      } else if sha in MrHeads(front) {
        var i :| 0 <= i < n && Registers(front[i], sha) && MrHeads(front)[sha] == front[i].iid
          && forall j :: i < j < n ==> !Registers(front[j], sha);
        assert front[i] == mrs[i];
        forall j | i < j < |mrs|
          ensures !Registers(mrs[j], sha)
        {
          if j < n {
            assert front[j] == mrs[j];
          }
        }
        assert MrHeads(mrs)[sha] == mrs[i].iid;
      } else {
        forall i | 0 <= i < |mrs|
          ensures !Registers(mrs[i], sha)
        {
          if i < n {
            assert front[i] == mrs[i];
          }
        }
      }
    }
  }

  /** The loop filling `mr_heads`, over the merge requests as listed. */
  method CollectMrHeads(mrs: seq<MergeRequest>) returns (heads: map<Sha, int>)
    ensures heads == MrHeads(mrs)
  {
    heads := map[];
    var n := 0;
    while n < |mrs|
      invariant 0 <= n <= |mrs|
      invariant heads == MrHeads(mrs[..n])
    {
      var mr := mrs[n];
      assert mrs[..n + 1][..n] == mrs[..n];
      heads := heads[mr.headSha := mr.iid];
      if mr.state == "merged" && mr.mergeCommitSha.Some? {
        heads := heads[mr.mergeCommitSha.value := mr.iid];
      }
      n := n + 1;
    }
    assert mrs[..n] == mrs;
  }

  // ---------------------------------------------------------------------
  // check_mr_heads
  // ---------------------------------------------------------------------

  /** The position of the first parent, from position `from` on, that is a key of `heads`. */
  function FirstParentIn(heads: map<Sha, int>, parents: seq<Sha>, from: nat): (r: Option<nat>)
    requires from <= |parents|
    ensures r.None? <==> forall j :: from <= j < |parents| ==> parents[j] !in heads
    ensures r.Some? ==> from <= r.value < |parents| && parents[r.value] in heads
    ensures r.Some? ==> forall j :: from <= j < r.value ==> parents[j] !in heads
    decreases |parents| - from
  {
    if from == |parents| then None
    else if parents[from] in heads then Some(from)
    else FirstParentIn(heads, parents, from + 1)
  }

  /**
   * `check_mr_heads(commit)`: the commit's own entry if it has one; for a
   * merge commit (more than one parent) otherwise the entry of its first
   * parent that has one; `None` in every other case.
   */
  function CheckMrHeads(heads: map<Sha, int>, commit: Commit): (r: Option<int>)
    ensures commit.sha in heads ==> r == Some(heads[commit.sha])
    ensures commit.sha !in heads && |commit.parents| <= 1 ==> r.None?
    ensures commit.sha !in heads && |commit.parents| > 1 ==>
      (r.None? <==> forall j :: 0 <= j < |commit.parents| ==> commit.parents[j] !in heads)
    ensures commit.sha !in heads && r.Some? ==>
      exists i :: 0 <= i < |commit.parents| && commit.parents[i] in heads && r.value == heads[commit.parents[i]]
        && forall j :: 0 <= j < i ==> commit.parents[j] !in heads
  {
    if commit.sha in heads then Some(heads[commit.sha])
    else if |commit.parents| > 1 then
      match FirstParentIn(heads, commit.parents, 0)
      case Some(i) => Some(heads[commit.parents[i]])
      case None => None
    else None
  }

  /**
   * A commit that some merge request registers is always found, with the iid
   * of the last merge request registering it.
   */
  lemma RegisteredCommitIsFound(mrs: seq<MergeRequest>, commit: Commit, i: nat)
    requires i < |mrs| && Registers(mrs[i], commit.sha)
    requires forall j :: i < j < |mrs| ==> !Registers(mrs[j], commit.sha)
    ensures CheckMrHeads(MrHeads(mrs), commit) == Some(mrs[i].iid)
  {
    MrHeadsMeaning(mrs, commit.sha);
  }

  /**
   * A commit that no merge request registers is found only through a parent
   * of a merge commit.
   */
  lemma UnregisteredCommit(mrs: seq<MergeRequest>, commit: Commit)
    requires forall i :: 0 <= i < |mrs| ==> !Registers(mrs[i], commit.sha)
    ensures CheckMrHeads(MrHeads(mrs), commit).Some? ==>
      |commit.parents| > 1 && exists j :: 0 <= j < |commit.parents| && commit.parents[j] in MrHeads(mrs)
  {
    MrHeadsMeaning(mrs, commit.sha);
  }

  // ---------------------------------------------------------------------
  // The pipeline loop
  // ---------------------------------------------------------------------

  /** How one pipeline is reported: found in an MR, else by whether its status is "success". */
  function Classify(heads: map<Sha, int>, p: Pipeline): (f: Finding)
    ensures f.FoundInMr? <==> CheckMrHeads(heads, p.commit).Some?
    ensures f.FoundInMr? ==> f.iid == CheckMrHeads(heads, p.commit).value
    ensures f == NoMrCompleted <==> CheckMrHeads(heads, p.commit).None? && p.status == "success"
  {
    match CheckMrHeads(heads, p.commit)
    case Some(iid) => FoundInMr(iid)
    case None => if p.status == "success" then NoMrCompleted else NoMrIncomplete
  }

  /**
   * The loop over the pipelines (newest first): each one is classified and
   * its web url output; the loop stops right after the first pipeline whose
   * commit is older than the cutoff, which is itself still reported.
   */
  method ReportPipelines(heads: map<Sha, int>, pipelines: seq<Pipeline>, cutoff: int)
    returns (reports: seq<PipelineReport>)
    ensures |reports| <= |pipelines|
    ensures forall i :: 0 <= i < |reports| ==>
      reports[i] == PipelineReport(Classify(heads, pipelines[i]), pipelines[i].webUrl)
    ensures forall i :: 0 <= i < |reports| - 1 ==> pipelines[i].committedAt >= cutoff
    ensures |reports| < |pipelines| ==> |reports| > 0 && pipelines[|reports| - 1].committedAt < cutoff
    ensures |reports| == |pipelines| ==> forall i :: 0 <= i < |pipelines| - 1 ==> pipelines[i].committedAt >= cutoff
  {
    reports := [];
    var i := 0;
    while i < |pipelines|
      invariant 0 <= i <= |pipelines| && |reports| == i
      invariant forall k :: 0 <= k < i ==>
        reports[k] == PipelineReport(Classify(heads, pipelines[k]), pipelines[k].webUrl)
      invariant forall k :: 0 <= k < i ==> pipelines[k].committedAt >= cutoff
    {
      var p := pipelines[i];
      var finding := Classify(heads, p);
      reports := reports + [PipelineReport(finding, p.webUrl)];
      if p.committedAt < cutoff {
        break;
      }
      i := i + 1;
    }
  }
}
