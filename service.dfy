/** The script's HTTP requests, one method per request, over an abstract
    transport. Each request is appended to a ghost log of calls and answered
    with a reply supplied up front; a reply is either the decoded response or
    the transport failure that `makeApiRequest` throws as an exception. URLs,
    headers, credentials and JSON encoding are not modelled. */
module Service {

  import opened Values
  import opened Images

  /** The key of the page property that links a page to its published copy. */
  const PropertyKey := "wordpress"
  /** The `status` sent with every page create and update. */
  const PublishStatus := "publish"

  /** A request's outcome: the decoded response, or the message of the
      exception `makeApiRequest` throws when curl reports an error. */
  datatype Reply<T> = Ok(value: T) | Fail(message: string)

  /** The fields of the page's additional metadata the script reads: `title`,
      `author.fullName` and `author.email`, each None when absent or null. */
  datatype PageInfo = PageInfo(title: Option<string>, authorName: Option<string>, authorEmail: Option<string>)

  /** The `wordpress` entry of the page's properties, as read: `wpPageId`
      (Null when absent) and `wpImageId` (None when absent or null). */
  datatype StoredLink = StoredLink(wpPageId: Scalar, wpImageId: Option<ImageMap>)

  /** The value written back under the `wordpress` key. */
  datatype LinkValue = LinkValue(wpPageId: Scalar, wpImageId: ImageMap)

  /** One request as the log records it, with the payload it carries. */
  datatype Call =
    | GetPage(pageId: string)
    | GetPageInfo(pageId: string)
    | GetUsers(email: string)
    | PostUser(username: string, email: string, password: string)
    | GetProperties(pageId: string)
    | PutPage(wpPageId: Scalar, content: string, status: string)
    | PostPage(title: string, content: string, status: string, author: Scalar)
    | PutProperty(pageId: string, key: string, value: LinkValue)

  /** The reply each kind of request gets. The script makes each kind of
      request at most once per run, so one reply per kind fixes the run. */
  datatype Replies = Replies(
    pageBody: Reply<string>,
    pageInfo: Reply<PageInfo>,
    userSearch: Reply<seq<Scalar>>,
    newUser: Reply<Scalar>,
    properties: Reply<Option<StoredLink>>,
    pageUpdated: Reply<()>,
    newPage: Reply<Scalar>,
    metadataUpdated: Reply<()>)

  function FailureOfReply<T>(r: Reply<T>): Option<string> {
    match r
    case Ok(_) => None
    case Fail(m) => Some(m)
  }

  /** The exception message a call raises, if its reply is a failure. */
  function FailureOf(replies: Replies, call: Call): Option<string> {
    match call
    case GetPage(_) => FailureOfReply(replies.pageBody)
    case GetPageInfo(_) => FailureOfReply(replies.pageInfo)
    case GetUsers(_) => FailureOfReply(replies.userSearch)
    case PostUser(_, _, _) => FailureOfReply(replies.newUser)
    case GetProperties(_) => FailureOfReply(replies.properties)
    case PutPage(_, _, _) => FailureOfReply(replies.pageUpdated)
    case PostPage(_, _, _, _) => FailureOfReply(replies.newPage)
    case PutProperty(_, _, _) => FailureOfReply(replies.metadataUpdated)
  }

  /** The source and publishing systems as the script sees them. */
  class Api {
    const replies: Replies
    ghost var log: seq<Call>

    constructor (replies: Replies)
      ensures this.replies == replies && log == []
    {
      this.replies := replies;
      log := [];
    }

    /** `fetchConfluencePageContent`, reduced to `body.view.value`. */
    method FetchConfluencePageContent(pageId: string) returns (r: Reply<string>)
      modifies this
      ensures log == old(log) + [GetPage(pageId)] && r == replies.pageBody
    {
      log := log + [GetPage(pageId)];
      r := replies.pageBody;
    }

    /** `fetchAdditionalMetadata`. */
    method FetchAdditionalMetadata(pageId: string) returns (r: Reply<PageInfo>)
      modifies this
      ensures log == old(log) + [GetPageInfo(pageId)] && r == replies.pageInfo
    {
      log := log + [GetPageInfo(pageId)];
      r := replies.pageInfo;
    }

    /** The user search of `ensureAuthorExists`: the ids of the hits, in
        order (empty for an empty or null response). */
    method SearchUsers(email: string) returns (r: Reply<seq<Scalar>>)
      modifies this
      ensures log == old(log) + [GetUsers(email)] && r == replies.userSearch
    {
      log := log + [GetUsers(email)];
      r := replies.userSearch;
    }

    /** The user creation of `ensureAuthorExists`: the new user's `id`. */
    method CreateUser(name: string, email: string, password: string) returns (r: Reply<Scalar>)
      modifies this
      ensures log == old(log) + [PostUser(name, email, password)] && r == replies.newUser
    {
      log := log + [PostUser(name, email, password)];
      r := replies.newUser;
    }

    /** `fetchMetadataProperties`, reduced to its `wordpress` entry. */
    method FetchMetadataProperties(pageId: string) returns (r: Reply<Option<StoredLink>>)
      modifies this
      ensures log == old(log) + [GetProperties(pageId)] && r == replies.properties
    {
      log := log + [GetProperties(pageId)];
      r := replies.properties;
    }

    /** `updateWordPressPage`: the response is not used. */
    method UpdateWordPressPage(wpPageId: Scalar, content: string) returns (r: Reply<()>)
      modifies this
      ensures log == old(log) + [PutPage(wpPageId, content, PublishStatus)] && r == replies.pageUpdated
    {
      log := log + [PutPage(wpPageId, content, PublishStatus)];
      r := replies.pageUpdated;
    }

    /** `createWordPressPage`: the new page's `id`. */
    method CreateWordPressPage(content: string, title: string, authorId: Scalar) returns (r: Reply<Scalar>)
      modifies this
      ensures log == old(log) + [PostPage(title, content, PublishStatus, authorId)] && r == replies.newPage
    {
      log := log + [PostPage(title, content, PublishStatus, authorId)];
      r := replies.newPage;
    }

    /** `updateConfluenceMetadata`: the pair is stored under `wordpress`. */
    method UpdateConfluenceMetadata(pageId: string, wpPageId: Scalar, images: ImageMap) returns (r: Reply<()>)
      modifies this
      ensures log == old(log) + [PutProperty(pageId, PropertyKey, LinkValue(wpPageId, images))]
      ensures r == replies.metadataUpdated
    {
      log := log + [PutProperty(pageId, PropertyKey, LinkValue(wpPageId, images))];
      r := replies.metadataUpdated;
    }
  }
}
