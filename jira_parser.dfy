/**
 * `jira_parser/__init__.py`, `JiraParser.__prepare_json_object`: the raw
 * issue becomes a flat record, built in one expression per key. The
 * GitHub fetcher is absent, so pull requests and commits stay empty.
 */
module JiraParser {
  import opened Wrappers
  import opened JiraRaw

  /** `{"type": ..., "issue_key": ...}` of an issue link. */
  datatype IssueLink = IssueLink(linkType: string, issueKey: string)

  datatype Issue = Issue(
    issueKey: string,
    project: Project,
    author: Option<string>,
    created: string,
    updated: string,
    status: string,
    summary: string,
    description: string,
    attachments: seq<Attachment>,
    issuelinks: seq<IssueLink>,
    remotelinks: seq<RemoteLink>,
    comments: seq<Comment>,
    pullRequests: seq<string>,
    commits: seq<string>)

  /** A link names its issue under `"inwardIssue"` or `"outwardIssue"`. */
  predicate Linked(l: RawLink) {
    l.inwardIssue.Some? || l.outwardIssue.Some?
  }

  /**
   * Line 306: the key of `"inwardIssue"` when the link has one, otherwise
   * that of `"outwardIssue"`; with neither the lookup raises `KeyError`.
   */
  function LinkOf(l: RawLink): (r: Option<IssueLink>)
    ensures r.None? <==> !Linked(l)
    ensures r.Some? ==> r.value.linkType == l.linkType.name
    ensures l.inwardIssue.Some? ==> r == Some(IssueLink(l.linkType.name, l.inwardIssue.value.key))
    ensures l.inwardIssue.None? && l.outwardIssue.Some? ==>
              r == Some(IssueLink(l.linkType.name, l.outwardIssue.value.key))
  {
    if l.inwardIssue.Some? then Some(IssueLink(l.linkType.name, l.inwardIssue.value.key))
    else if l.outwardIssue.Some? then Some(IssueLink(l.linkType.name, l.outwardIssue.value.key))
    else None
  }

  /** Lines 302-308: the links in order, or the `KeyError` of the first link with no issue. */
  function LinksOf(links: seq<RawLink>): (r: Option<seq<IssueLink>>)
    ensures r.None? <==> exists k :: 0 <= k < |links| && !Linked(links[k])
    ensures r.Some? ==> |r.value| == |links| &&
                        forall k :: 0 <= k < |links| ==> Some(r.value[k]) == LinkOf(links[k])
  {
    if forall k :: 0 <= k < |links| ==> Linked(links[k]) then
      Some(seq(|links|, k requires 0 <= k < |links| => LinkOf(links[k]).value))
    else None
  }

  /** `description if description else ""`: `null` and the empty text both give `""`. */
  function DescriptionOf(d: Option<string>): (r: string)
    ensures d.Some? ==> r == d.value
    ensures d.None? ==> r == ""
  {
    if d.Some? && d.value != "" then d.value else ""
  }

  /** `__prepare_json_object(issue)` with no GitHub fetcher, lines 269-339. */
  function PrepareJsonObject(issue: RawIssue): (r: Option<Issue>)
    ensures r.None? <==> exists k :: 0 <= k < |issue.fields.issuelinks| && !Linked(issue.fields.issuelinks[k])
    ensures r.Some? ==> Some(r.value.issuelinks) == LinksOf(issue.fields.issuelinks)
  {
    var f := issue.fields;
    match LinksOf(f.issuelinks)
    case None => None
    case Some(links) =>
      Some(Issue(
        issueKey := issue.key,
        project := ProjectOf(f.project),
        author := AuthorOf(f.creator),
        created := f.created,
        updated := f.updated,
        status := f.status.name,
        summary := f.summary,
        description := DescriptionOf(f.description),
        attachments := seq(|f.attachment|, k requires 0 <= k < |f.attachment| => AttachmentOf(f.attachment[k])),
        issuelinks := links,
        remotelinks := seq(|issue.remotelinks|, k requires 0 <= k < |issue.remotelinks| => RemoteLinkOf(issue.remotelinks[k])),
        comments := seq(|f.comments|, k requires 0 <= k < |f.comments| => CommentOf(f.comments[k])),
        pullRequests := [],
        commits := []))
  }

  // ---------------------------------------------------------------------
  // What the record holds
  // ---------------------------------------------------------------------

  /** The issue key, the project's key and name, the dates, status and summary are copied (lines 273-288). */
  lemma PreparedCopies(issue: RawIssue)
    requires PrepareJsonObject(issue).Some?
    ensures var r, f := PrepareJsonObject(issue).value, issue.fields;
            r.issueKey == issue.key && r.project.key == f.project.key && r.project.name == f.project.name &&
            r.created == f.created && r.updated == f.updated && r.status == f.status.name &&
            r.summary == f.summary
  {
  }

  /** No creator gives no author; otherwise the author is the creator's name (lines 282-283). */
  lemma PreparedAuthor(issue: RawIssue)
    requires PrepareJsonObject(issue).Some?
    ensures var r, c := PrepareJsonObject(issue).value, issue.fields.creator;
            (r.author.None? <==> c.None?) && (c.Some? ==> r.author == Some(c.value.name))
  {
  }

  /** A missing description becomes `""`, any other is copied (lines 290-291). */
  lemma PreparedDescription(issue: RawIssue)
    requires PrepareJsonObject(issue).Some?
    ensures var r, d := PrepareJsonObject(issue).value, issue.fields.description;
            r.description == if d.Some? then d.value else ""
  {
  }

  /** The four lists keep the length and the order of the raw lists (lines 294-329). */
  lemma PreparedLists(issue: RawIssue)
    requires PrepareJsonObject(issue).Some?
    ensures var r, f := PrepareJsonObject(issue).value, issue.fields;
            |r.attachments| == |f.attachment| && |r.issuelinks| == |f.issuelinks| &&
            |r.remotelinks| == |issue.remotelinks| && |r.comments| == |f.comments|
    ensures var r, f := PrepareJsonObject(issue).value, issue.fields;
            forall k :: 0 <= k < |f.attachment| ==>
              r.attachments[k].filename == f.attachment[k].filename &&
              r.attachments[k].content == f.attachment[k].content
    ensures var r, f := PrepareJsonObject(issue).value, issue.fields;
            forall k :: 0 <= k < |f.issuelinks| ==>
              r.issuelinks[k].linkType == f.issuelinks[k].linkType.name &&
              r.issuelinks[k].issueKey ==
                if f.issuelinks[k].inwardIssue.Some? then f.issuelinks[k].inwardIssue.value.key
                else f.issuelinks[k].outwardIssue.value.key
    ensures var r := PrepareJsonObject(issue).value;
            forall k :: 0 <= k < |issue.remotelinks| ==>
              r.remotelinks[k].title == issue.remotelinks[k].remoteObject.title &&
              r.remotelinks[k].url == issue.remotelinks[k].remoteObject.url
    ensures var r, f := PrepareJsonObject(issue).value, issue.fields;
            forall k :: 0 <= k < |f.comments| ==>
              r.comments[k] == Comment(f.comments[k].author.name, f.comments[k].created,
                                       f.comments[k].updated, f.comments[k].body)
  {
    var r, f := PrepareJsonObject(issue).value, issue.fields;
    forall k | 0 <= k < |f.issuelinks|
      ensures r.issuelinks[k].linkType == f.issuelinks[k].linkType.name
      ensures r.issuelinks[k].issueKey ==
                if f.issuelinks[k].inwardIssue.Some? then f.issuelinks[k].inwardIssue.value.key
                else f.issuelinks[k].outwardIssue.value.key
    {
      assert Some(r.issuelinks[k]) == LinkOf(f.issuelinks[k]);
    }
  }

  /** With no GitHub fetcher both lists are empty (line 332). */
  lemma PreparedNoGithub(issue: RawIssue)
    requires PrepareJsonObject(issue).Some?
    ensures PrepareJsonObject(issue).value.pullRequests == [] && PrepareJsonObject(issue).value.commits == []
  {
  }
}
