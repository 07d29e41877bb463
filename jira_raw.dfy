/**
 * The raw Jira issue as the REST API returns it, restricted to the keys
 * both `__prepare_json_object` methods read, and the records they build
 * that the two versions share. A JSON object the code indexes is a
 * datatype with one field per key it reads; a key the code tests with `in`
 * or that can be `null` is an `Option`.
 */
module JiraRaw {
  import opened Wrappers

  /** An object read only for its `"name"`: a user, a status, a link type. */
  datatype Named = Named(name: string)

  /** An object read only for its `"key"`: a linked issue. */
  datatype Keyed = Keyed(key: string)

  datatype RawProject = RawProject(key: string, name: string)

  datatype RawAttachment = RawAttachment(filename: string, content: string)

  /** An entry of `"issuelinks"`: `"inwardIssue"` and `"outwardIssue"` may each be absent. */
  datatype RawLink = RawLink(linkType: Named, inwardIssue: Option<Keyed>, outwardIssue: Option<Keyed>)

  /** The `"object"` of an entry of `"remotelinks"` (`object` is a Dafny keyword). */
  datatype RawRemoteObject = RawRemoteObject(title: string, url: string)

  datatype RawRemoteLink = RawRemoteLink(remoteObject: RawRemoteObject)

  datatype RawComment = RawComment(author: Named, created: string, updated: string, body: string)

  /** `issue["fields"]`; `"creator"` and `"description"` may be `null`. */
  datatype RawFields = RawFields(
    project: RawProject,
    creator: Option<Named>,
    created: string,
    updated: string,
    status: Named,
    summary: string,
    description: Option<string>,
    attachment: seq<RawAttachment>,
    issuelinks: seq<RawLink>,
    comments: seq<RawComment>)

  datatype RawIssue = RawIssue(key: string, fields: RawFields, remotelinks: seq<RawRemoteLink>)

  // ---------------------------------------------------------------------
  // Records both versions build
  // ---------------------------------------------------------------------

  datatype Project = Project(key: string, name: string)

  datatype Attachment = Attachment(filename: string, content: string)

  datatype RemoteLink = RemoteLink(title: string, url: string)

  datatype Comment = Comment(author: string, created: string, updated: string, body: string)

  /** `{"key": ..., "name": ...}` of the project. */
  function ProjectOf(p: RawProject): Project
  {
    Project(p.key, p.name)
  }

  /** `author["name"] if author else None`. */
  function AuthorOf(creator: Option<Named>): Option<string>
  {
    match creator
    case None => None
    case Some(u) => Some(u.name)
  }

  function AttachmentOf(a: RawAttachment): Attachment
  {
    Attachment(a.filename, a.content)
  }

  function RemoteLinkOf(l: RawRemoteLink): RemoteLink
  {
    RemoteLink(l.remoteObject.title, l.remoteObject.url)
  }

  function CommentOf(c: RawComment): Comment
  {
    Comment(c.author.name, c.created, c.updated, c.body)
  }
}
