/**
 * `parser/jiraparser.py`, `JiraParser.__prepare_json_object`: the older
 * version of the projection, which fills each list by a loop of appends,
 * copies the description as it is and prefers `"outwardIssue"`.
 */
module ParserJiraParser {
  import opened Wrappers
  import opened JiraRaw
  import J = JiraParser

  /** A link record: `"issue_key"` is absent when the link names no issue. */
  datatype IssueLink = IssueLink(linkType: string, issueKey: Option<string>)

  datatype Issue = Issue(
    issueKey: string,
    project: Project,
    author: Option<string>,
    created: string,
    updated: string,
    status: string,
    summary: string,
    description: Option<string>,
    attachments: seq<Attachment>,
    issuelinks: seq<IssueLink>,
    remotelinks: seq<RemoteLink>,
    comments: seq<Comment>)

  /** Lines 155-160: `"outwardIssue"` first, then `"inwardIssue"`, else no key. */
  function LinkOf(l: RawLink): (r: IssueLink)
    ensures r.linkType == l.linkType.name
    ensures l.outwardIssue.Some? ==> r.issueKey == Some(l.outwardIssue.value.key)
    ensures l.outwardIssue.None? && l.inwardIssue.Some? ==> r.issueKey == Some(l.inwardIssue.value.key)
    ensures r.issueKey.None? <==> !J.Linked(l)
  {
    IssueLink(l.linkType.name,
              if l.outwardIssue.Some? then Some(l.outwardIssue.value.key)
              else if l.inwardIssue.Some? then Some(l.inwardIssue.value.key)
              else None)
  }

  /** The record the method builds, each list written as the sequence of its converted entries. */
  function Prepared(issue: RawIssue): (r: Issue)
    ensures r.issueKey == issue.key && r.project.key == issue.fields.project.key &&
            r.project.name == issue.fields.project.name
    ensures r.description == issue.fields.description
    ensures |r.attachments| == |issue.fields.attachment| && |r.issuelinks| == |issue.fields.issuelinks| &&
            |r.remotelinks| == |issue.remotelinks| && |r.comments| == |issue.fields.comments|
  {
    var f := issue.fields;
    Issue(
      issueKey := issue.key,
      project := ProjectOf(f.project),
      author := AuthorOf(f.creator),
      created := f.created,
      updated := f.updated,
      status := f.status.name,
      summary := f.summary,
      description := f.description,
      attachments := seq(|f.attachment|, k requires 0 <= k < |f.attachment| => AttachmentOf(f.attachment[k])),
      issuelinks := seq(|f.issuelinks|, k requires 0 <= k < |f.issuelinks| => LinkOf(f.issuelinks[k])),
      remotelinks := seq(|issue.remotelinks|, k requires 0 <= k < |issue.remotelinks| => RemoteLinkOf(issue.remotelinks[k])),
      comments := seq(|f.comments|, k requires 0 <= k < |f.comments| => CommentOf(f.comments[k])))
  }

  /**
   * `__prepare_json_object(issue)`, lines 126-181: the scalar keys are
   * copied, then each of the four lists is filled by its own loop.
   */
  method PrepareJsonObject(issue: RawIssue) returns (r: Issue)
    ensures r == Prepared(issue)
  {
    var f := issue.fields;

    var attachments: seq<Attachment> := [];
    for i := 0 to |f.attachment|
      invariant attachments == seq(i, k requires 0 <= k < i => AttachmentOf(f.attachment[k]))
    {
      attachments := attachments + [Attachment(f.attachment[i].filename, f.attachment[i].content)];
    }

    var issueLinks: seq<IssueLink> := [];
    for i := 0 to |f.issuelinks|
      invariant issueLinks == seq(i, k requires 0 <= k < i => LinkOf(f.issuelinks[k]))
    {
      var link := f.issuelinks[i];
      var key: Option<string> := None;
      if link.outwardIssue.Some? {
        key := Some(link.outwardIssue.value.key);
      } else if link.inwardIssue.Some? {
        key := Some(link.inwardIssue.value.key);
      }
      issueLinks := issueLinks + [IssueLink(link.linkType.name, key)];
    }

    var remoteLinks: seq<RemoteLink> := [];
    for i := 0 to |issue.remotelinks|
      invariant remoteLinks == seq(i, k requires 0 <= k < i => RemoteLinkOf(issue.remotelinks[k]))
    {
      var link := issue.remotelinks[i];
      remoteLinks := remoteLinks + [RemoteLink(link.remoteObject.title, link.remoteObject.url)];
    }

    var comments: seq<Comment> := [];
    for i := 0 to |f.comments|
      invariant comments == seq(i, k requires 0 <= k < i => CommentOf(f.comments[k]))
    {
      var comment := f.comments[i];
      comments := comments + [Comment(comment.author.name, comment.created, comment.updated, comment.body)];
    }

    r := Issue(
      issueKey := issue.key,
      project := Project(f.project.key, f.project.name),
      author := if f.creator.Some? then Some(f.creator.value.name) else None,
      created := f.created,
      updated := f.updated,
      status := f.status.name,
      summary := f.summary,
      description := f.description,
      attachments := attachments,
      issuelinks := issueLinks,
      remotelinks := remoteLinks,
      comments := comments);
  }

  // ---------------------------------------------------------------------
  // What the record holds
  // ---------------------------------------------------------------------

  /** Every list keeps the order of the raw list, entry by entry (lines 145-179). */
  lemma PreparedLists(issue: RawIssue)
    ensures var r, f := Prepared(issue), issue.fields;
            forall k :: 0 <= k < |f.attachment| ==>
              r.attachments[k].filename == f.attachment[k].filename &&
              r.attachments[k].content == f.attachment[k].content
    ensures var r, f := Prepared(issue), issue.fields;
            forall k :: 0 <= k < |f.issuelinks| ==> r.issuelinks[k] == LinkOf(f.issuelinks[k])
    ensures var r := Prepared(issue);
            forall k :: 0 <= k < |issue.remotelinks| ==>
              r.remotelinks[k].title == issue.remotelinks[k].remoteObject.title &&
              r.remotelinks[k].url == issue.remotelinks[k].remoteObject.url
    ensures var r, f := Prepared(issue), issue.fields;
            forall k :: 0 <= k < |f.comments| ==>
              r.comments[k] == Comment(f.comments[k].author.name, f.comments[k].created,
                                       f.comments[k].updated, f.comments[k].body)
  {
  }

  /** No creator gives no author (lines 128, 135); the dates and the status are copied (lines 136-138). */
  lemma PreparedScalars(issue: RawIssue)
    ensures var r, f := Prepared(issue), issue.fields;
            (r.author.None? <==> f.creator.None?) && (f.creator.Some? ==> r.author == Some(f.creator.value.name)) &&
            r.created == f.created && r.updated == f.updated && r.status == f.status.name &&
            r.summary == f.summary
  {
  }

  // ---------------------------------------------------------------------
  // The two versions side by side
  // ---------------------------------------------------------------------

  /**
   * Both versions agree on a link that names one issue; on a link that
   * names both the newer takes the inward key and this one the outward key.
   */
  lemma LinkVersions(l: RawLink)
    ensures l.inwardIssue.Some? != l.outwardIssue.Some? ==> LinkOf(l).issueKey == Some(J.LinkOf(l).value.issueKey)
    ensures l.inwardIssue.Some? && l.outwardIssue.Some? ==>
              LinkOf(l).issueKey == Some(l.outwardIssue.value.key) &&
              J.LinkOf(l).value.issueKey == l.inwardIssue.value.key
    ensures !J.Linked(l) ==> J.LinkOf(l).None? && LinkOf(l).issueKey.None?
  {
  }

  /** Whatever the newer version accepts, both build the same record except the description and the links. */
  lemma Versions(issue: RawIssue)
    requires J.PrepareJsonObject(issue).Some?
    ensures var n, o := J.PrepareJsonObject(issue).value, Prepared(issue);
            n.issueKey == o.issueKey && n.project == o.project && n.author == o.author &&
            n.created == o.created && n.updated == o.updated && n.status == o.status &&
            n.summary == o.summary && n.attachments == o.attachments &&
            n.remotelinks == o.remotelinks && n.comments == o.comments
    ensures var n, o := J.PrepareJsonObject(issue).value, Prepared(issue);
            o.description == None ==> n.description == ""
    ensures var n, o := J.PrepareJsonObject(issue).value, Prepared(issue);
            o.description.Some? ==> n.description == o.description.value
    ensures var n, o := J.PrepareJsonObject(issue).value, Prepared(issue);
            |n.issuelinks| == |o.issuelinks| &&
            forall k :: 0 <= k < |o.issuelinks| ==> n.issuelinks[k].linkType == o.issuelinks[k].linkType
  {
    var n, o := J.PrepareJsonObject(issue).value, Prepared(issue);
    forall k | 0 <= k < |o.issuelinks|
      ensures n.issuelinks[k].linkType == o.issuelinks[k].linkType
    {
      assert Some(n.issuelinks[k]) == J.LinkOf(issue.fields.issuelinks[k]);
    }
  }

  /** A link with both keys that differ shows the two versions disagree. */
  lemma VersionsDisagree()
    ensures var l := RawLink(Named("relates"), Some(Keyed("A-1")), Some(Keyed("A-2")));
            LinkOf(l).issueKey == Some("A-2") && J.LinkOf(l) == Some(J.IssueLink("relates", "A-1"))
  {
  }
}
