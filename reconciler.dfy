/** `postToWordPress` and `ensureAuthorExists`: fetch the page, resolve its
    author, decide between updating the linked page and creating a new one,
    then write the link back. Any exception ends the run at once and becomes
    the result `"Error: " + message`. */
module Reconciler {

  import opened Values
  import opened Fragment
  import opened Images
  import opened Sanitizer
  import opened Service

  const Success := "Page successfully posted to WordPress."
  const DefaultTitle := "No Title"
  const DefaultAuthorName := "Unknown Author"
  const DefaultAuthorEmail := "no-reply@example.com"

  function ErrorMessage(message: string): string {
    "Error: " + message
  }

  /** The requests a run makes, in order, and the string it returns. */
  datatype Run = Run(calls: seq<Call>, message: string)

  /** The requests `ensureAuthorExists` makes and the author id it yields. */
  datatype AuthorRun = AuthorRun(calls: seq<Call>, outcome: Reply<Scalar>)

  function Title(info: PageInfo): string {
    info.title.Or(DefaultTitle)
  }

  function AuthorName(info: PageInfo): string {
    info.authorName.Or(DefaultAuthorName)
  }

  function AuthorEmail(info: PageInfo): string {
    info.authorEmail.Or(DefaultAuthorEmail)
  }

  /** `$metadataProperties['wordpress']['wpPageId'] ?? null`. */
  function StoredPageId(props: Option<StoredLink>): Scalar {
    match props
    case None => Null
    case Some(link) => link.wpPageId
  }

  /** `$metadataProperties['wordpress']['wpImageId'] ?? []`. */
  function StoredImages(props: Option<StoredLink>): ImageMap {
    match props
    case None => []
    case Some(link) => link.wpImageId.Or([])
  }

  /** `ensureAuthorExists` as a function of the replies: the first search hit
      is reused; an empty result leads to one user creation. */
  function AuthorStep(replies: Replies, name: string, email: string, password: string): AuthorRun {
    match replies.userSearch
    case Fail(m) => AuthorRun([GetUsers(email)], Fail(m))
    case Ok(hits) =>
      if hits != [] then AuthorRun([GetUsers(email)], Ok(hits[0]))
      else AuthorRun([GetUsers(email), PostUser(name, email, password)], replies.newUser)
  }

  /** `postToWordPress` as a function of the replies: the reference the
      method is proved against. */
  function Publish(replies: Replies, pageId: string, password: string): Run {
    var fetch := [GetPage(pageId)];
    match replies.pageBody
    case Fail(m) => Run(fetch, ErrorMessage(m))
    case Ok(body) =>
      var pageContent := ExtractPanelContent(body);
      var describe := fetch + [GetPageInfo(pageId)];
      match replies.pageInfo
      case Fail(m) => Run(describe, ErrorMessage(m))
      case Ok(info) =>
        var author := AuthorStep(replies, AuthorName(info), AuthorEmail(info), password);
        var resolve := describe + author.calls;
        match author.outcome
        case Fail(m) => Run(resolve, ErrorMessage(m))
        case Ok(authorId) =>
          var link := resolve + [GetProperties(pageId)];
          match replies.properties
          case Fail(m) => Run(link, ErrorMessage(m))
          case Ok(props) =>
            var images := ProcessImages(pageContent, StoredImages(props));
            var cleaned := RewriteImages(Sanitize(pageContent), images);
            var storedId := StoredPageId(props);
            if Truthy(storedId) then
              var publish := link + [PutPage(storedId, cleaned, PublishStatus)];
              match replies.pageUpdated
              case Fail(m) => Run(publish, ErrorMessage(m))
              case Ok(_) => WriteBack(replies, publish, pageId, storedId, images)
            else
              var publish := link + [PostPage(Title(info), cleaned, PublishStatus, authorId)];
              match replies.newPage
              case Fail(m) => Run(publish, ErrorMessage(m))
              case Ok(newId) => WriteBack(replies, publish, pageId, newId, images)
  }

  /** The last step of a run: the link is written back whatever branch was
      taken. */
  function WriteBack(replies: Replies, calls: seq<Call>, pageId: string, wpPageId: Scalar, images: ImageMap): Run {
    var done := calls + [PutProperty(pageId, PropertyKey, LinkValue(wpPageId, images))];
    match replies.metadataUpdated
    case Fail(m) => Run(done, ErrorMessage(m))
    case Ok(_) => Run(done, Success)
  }

  /** `ensureAuthorExists($name, $email)`; `password` stands for the random
      password generated for a new user. */
  method EnsureAuthorExists(api: Api, name: string, email: string, password: string) returns (authorId: Reply<Scalar>)
    modifies api
    ensures api.log == old(api.log) + AuthorStep(api.replies, name, email, password).calls
    ensures authorId == AuthorStep(api.replies, name, email, password).outcome
    // a non-empty search result: its first hit, and no user is created
    ensures api.replies.userSearch.Ok? && api.replies.userSearch.value != [] ==>
      api.log == old(api.log) + [GetUsers(email)] && authorId == Ok(api.replies.userSearch.value[0])
    // an empty one: exactly one creation, with the given name and email
    ensures api.replies.userSearch == Ok([]) ==>
      api.log == old(api.log) + [GetUsers(email), PostUser(name, email, password)] && authorId == api.replies.newUser
    // a failed search: the exception propagates and nothing is created
    ensures api.replies.userSearch.Fail? ==>
      api.log == old(api.log) + [GetUsers(email)] && authorId == Fail(api.replies.userSearch.message)
  {
    var hits := api.SearchUsers(email);
    if hits.Fail? {
      return Fail(hits.message);
    }
    if hits.value != [] {
      return Ok(hits.value[0]);
    }
    authorId := api.CreateUser(name, email, password);
  }

  /** `postToWordPress($pageId)`. The ghost variable `calls` follows the
      requests made so far, which `api.log` gains. */
  method PostToWordPress(api: Api, pageId: string, password: string) returns (message: string)
    modifies api
    ensures api.log == old(api.log) + Publish(api.replies, pageId, password).calls
    ensures message == Publish(api.replies, pageId, password).message
  {
    ghost var start := api.log;
    ghost var calls := [GetPage(pageId)];
    var body := api.FetchConfluencePageContent(pageId);
    if body.Fail? {
      return ErrorMessage(body.message);
    }
    var pageContent := ExtractPanelContent(body.value);

    var info := api.FetchAdditionalMetadata(pageId);
    Logged(start, calls, [GetPageInfo(pageId)]);
    calls := calls + [GetPageInfo(pageId)];
    if info.Fail? {
      return ErrorMessage(info.message);
    }
    var title := Title(info.value);
    var authorName := AuthorName(info.value);
    var authorEmail := AuthorEmail(info.value);

    var authorId := EnsureAuthorExists(api, authorName, authorEmail, password);
    Logged(start, calls, AuthorStep(api.replies, authorName, authorEmail, password).calls);
    calls := calls + AuthorStep(api.replies, authorName, authorEmail, password).calls;
    if authorId.Fail? {
      return ErrorMessage(authorId.message);
    }

    var props := api.FetchMetadataProperties(pageId);
    Logged(start, calls, [GetProperties(pageId)]);
    calls := calls + [GetProperties(pageId)];
    if props.Fail? {
      return ErrorMessage(props.message);
    }
    var wpPageId := StoredPageId(props.value);

    var images := ProcessImages(pageContent, StoredImages(props.value));
    var cleaned := CleanContent(pageContent, images);

    if Truthy(wpPageId) {
      var updated := api.UpdateWordPressPage(wpPageId, cleaned);
      Logged(start, calls, [PutPage(wpPageId, cleaned, PublishStatus)]);
      calls := calls + [PutPage(wpPageId, cleaned, PublishStatus)];
      if updated.Fail? {
        return ErrorMessage(updated.message);
      }
    } else {
      var created := api.CreateWordPressPage(cleaned, title, authorId.value);
      Logged(start, calls, [PostPage(title, cleaned, PublishStatus, authorId.value)]);
      calls := calls + [PostPage(title, cleaned, PublishStatus, authorId.value)];
      if created.Fail? {
        return ErrorMessage(created.message);
      }
      wpPageId := created.value;
    }

    var stored := api.UpdateConfluenceMetadata(pageId, wpPageId, images);
    Logged(start, calls, [PutProperty(pageId, PropertyKey, LinkValue(wpPageId, images))]);
    calls := calls + [PutProperty(pageId, PropertyKey, LinkValue(wpPageId, images))];
    if stored.Fail? {
      return ErrorMessage(stored.message);
    }
    return Success;
  }

  /** Appending to the log step by step appends to the run's calls. */
  lemma Logged(start: seq<Call>, calls: seq<Call>, next: seq<Call>)
    ensures start + calls + next == start + (calls + next)
  {
  }

  /** The replies of a run that gets as far as creating or updating the
      page: the body, the page metadata, the author and the properties are
      all answered. */
  ghost predicate ReachesPublish(replies: Replies, password: string) {
    && replies.pageBody.Ok?
    && replies.pageInfo.Ok?
    && AuthorStep(replies, AuthorName(replies.pageInfo.value), AuthorEmail(replies.pageInfo.value), password).outcome.Ok?
    && replies.properties.Ok?
  }

  /** The content a run publishes: the panel of the page body, cleaned, with
      the image map read from the page properties. */
  function Cleaned(replies: Replies): string
    requires replies.pageBody.Ok? && replies.properties.Ok?
  {
    RewriteImages(Sanitize(ExtractPanelContent(replies.pageBody.value)), StoredImages(replies.properties.value))
  }

  /** The author step only searches users and creates at most one. */
  lemma AuthorCalls(replies: Replies, name: string, email: string, password: string)
    ensures forall c :: c in AuthorStep(replies, name, email, password).calls ==> c.GetUsers? || c.PostUser?
  {
  }

  /** The requests made before the page is created or updated. */
  function Preamble(replies: Replies, pageId: string, password: string): seq<Call>
    requires replies.pageInfo.Ok?
  {
    var info := replies.pageInfo.value;
    [GetPage(pageId)] + [GetPageInfo(pageId)] + AuthorStep(replies, AuthorName(info), AuthorEmail(info), password).calls + [GetProperties(pageId)]
  }

  /** The calls of a run that reaches the publishing step. */
  lemma PublishingRun(replies: Replies, pageId: string, password: string)
    requires ReachesPublish(replies, password)
    ensures var props := replies.properties.value;
      var storedId := StoredPageId(props);
      var info := replies.pageInfo.value;
      var author := AuthorStep(replies, AuthorName(info), AuthorEmail(info), password);
      var publish := if Truthy(storedId) then PutPage(storedId, Cleaned(replies), PublishStatus)
        else PostPage(Title(info), Cleaned(replies), PublishStatus, author.outcome.value);
      var published := if Truthy(storedId) then replies.pageUpdated.Ok? else replies.newPage.Ok?;
      Publish(replies, pageId, password).calls ==
        Preamble(replies, pageId, password) + [publish]
        + (if !published then []
           else if Truthy(storedId) then [PutProperty(pageId, PropertyKey, LinkValue(storedId, StoredImages(props)))]
           else [PutProperty(pageId, PropertyKey, LinkValue(replies.newPage.value, StoredImages(props)))])
  {
  }

  /** Before publishing, a run only reads and resolves the author. */
  lemma PreambleCalls(replies: Replies, pageId: string, password: string)
    requires replies.pageInfo.Ok?
    ensures forall c :: c in Preamble(replies, pageId, password) ==> !c.PutPage? && !c.PostPage? && !c.PutProperty?
  {
    var info := replies.pageInfo.value;
    AuthorCalls(replies, AuthorName(info), AuthorEmail(info), password);
  }

  /** A trace with one page request between read-only requests and the
      write-back holds that request once and no other page request. */
  lemma OnePageRequest(pre: seq<Call>, publish: Call, tail: seq<Call>)
    requires forall c :: c in pre ==> !c.PutPage? && !c.PostPage?
    requires forall c :: c in tail ==> c.PutProperty?
    requires publish.PutPage? || publish.PostPage?
    ensures multiset(pre + [publish] + tail)[publish] == 1
    ensures forall c :: c in pre + [publish] + tail && (c.PutPage? || c.PostPage?) ==> c == publish
  {
    assert publish !in pre && publish !in tail;
    assert multiset(pre)[publish] == 0 && multiset(tail)[publish] == 0;
  }

  /** A page already linked (a truthy stored id) is updated in place: one
      update request, with that id and the cleaned content, and no page is
      created. */
  lemma UpdatesWhenLinked(replies: Replies, pageId: string, password: string)
    requires ReachesPublish(replies, password) && Truthy(StoredPageId(replies.properties.value))
    ensures var calls := Publish(replies, pageId, password).calls;
      var update := PutPage(StoredPageId(replies.properties.value), Cleaned(replies), PublishStatus);
      && multiset(calls)[update] == 1
      && (forall c :: c in calls && c.PutPage? ==> c == update)
      && (forall c :: c in calls ==> !c.PostPage?)
  {
    PublishingRun(replies, pageId, password);
    PreambleCalls(replies, pageId, password);
    var props := replies.properties.value;
    var tail := if replies.pageUpdated.Ok? then [PutProperty(pageId, PropertyKey, LinkValue(StoredPageId(props), StoredImages(props)))] else [];
    OnePageRequest(Preamble(replies, pageId, password), PutPage(StoredPageId(props), Cleaned(replies), PublishStatus), tail);
  }

  /** A page not linked yet (a falsy stored id: null, "", "0", 0 or false) is
      created: one create request with the title, the cleaned content and the
      author, no update, and the id it returns is the one written back. */
  lemma CreatesWhenUnlinked(replies: Replies, pageId: string, password: string)
    requires ReachesPublish(replies, password) && !Truthy(StoredPageId(replies.properties.value))
    ensures var calls := Publish(replies, pageId, password).calls;
      var info := replies.pageInfo.value;
      var authorId := AuthorStep(replies, AuthorName(info), AuthorEmail(info), password).outcome.value;
      var create := PostPage(Title(info), Cleaned(replies), PublishStatus, authorId);
      && multiset(calls)[create] == 1
      && (forall c :: c in calls && c.PostPage? ==> c == create)
      && (forall c :: c in calls ==> !c.PutPage?)
      && (replies.newPage.Ok? ==> calls[|calls| - 1] == PutProperty(pageId, PropertyKey, LinkValue(replies.newPage.value, StoredImages(replies.properties.value))))
  {
    PublishingRun(replies, pageId, password);
    PreambleCalls(replies, pageId, password);
    var info := replies.pageInfo.value;
    var authorId := AuthorStep(replies, AuthorName(info), AuthorEmail(info), password).outcome.value;
    var props := replies.properties.value;
    var tail := if replies.newPage.Ok? then [PutProperty(pageId, PropertyKey, LinkValue(replies.newPage.value, StoredImages(props)))] else [];
    OnePageRequest(Preamble(replies, pageId, password), PostPage(Title(info), Cleaned(replies), PublishStatus, authorId), tail);
  }

  /** The outcome a run reports after its last request. */
  function Outcome(failure: Option<string>): string {
    match failure
    case None => Success
    case Some(m) => ErrorMessage(m)
  }

  /** The author step stops at its first failing request. */
  lemma AuthorStopsAtFailure(replies: Replies, name: string, email: string, password: string)
    ensures var author := AuthorStep(replies, name, email, password);
      && author.calls != []
      && (forall i :: 0 <= i < |author.calls| - 1 ==> FailureOf(replies, author.calls[i]).None?)
      && FailureOfReply(author.outcome) == FailureOf(replies, author.calls[|author.calls| - 1])
  {
  }

  /** A run's requests stop at the first one that fails, and the run reports
      that failure, or success when there is none. */
  predicate StopsAtFailure(replies: Replies, run: Run) {
    && run.calls != []
    && (forall i :: 0 <= i < |run.calls| - 1 ==> FailureOf(replies, run.calls[i]).None?)
    && run.message == Outcome(FailureOf(replies, run.calls[|run.calls| - 1]))
  }

  /** A trace whose requests before the last all succeeded stops at its
      last request. */
  lemma StopsAfter(replies: Replies, pre: seq<Call>, last: Call, message: string)
    requires forall c :: c in pre ==> FailureOf(replies, c).None?
    requires message == Outcome(FailureOf(replies, last))
    ensures StopsAtFailure(replies, Run(pre + [last], message))
  {
    var calls := pre + [last];
    forall i | 0 <= i < |calls| - 1
      ensures FailureOf(replies, calls[i]).None?
    {
      assert calls[i] == pre[i];
    }
  }

  /** The try block ends at the first request that throws: every earlier
      request succeeded, none follows it, and its message becomes the result;
      a run whose requests all succeed reports success. */
  lemma RunStopsAtFirstFailure(replies: Replies, pageId: string, password: string)
    ensures StopsAtFailure(replies, Publish(replies, pageId, password))
  {
    if ReachesPublish(replies, password) {
      PublishStopsAtFailure(replies, pageId, password);
    } else {
      ReadStopsAtFailure(replies, pageId, password);
    }
  }

  /** The runs that end while reading: page, metadata, author or
      properties. */
  lemma ReadStopsAtFailure(replies: Replies, pageId: string, password: string)
    requires !ReachesPublish(replies, password)
    ensures StopsAtFailure(replies, Publish(replies, pageId, password))
  {
    var run := Publish(replies, pageId, password);
    if replies.pageBody.Fail? {
      assert run == Run([GetPage(pageId)], ErrorMessage(replies.pageBody.message));
      StopsAfter(replies, [], GetPage(pageId), run.message);
    } else if replies.pageInfo.Fail? {
      assert run == Run([GetPage(pageId), GetPageInfo(pageId)], ErrorMessage(replies.pageInfo.message));
      StopsAfter(replies, [GetPage(pageId)], GetPageInfo(pageId), run.message);
    } else {
      var info := replies.pageInfo.value;
      var author := AuthorStep(replies, AuthorName(info), AuthorEmail(info), password);
      AuthorStopsAtFailure(replies, AuthorName(info), AuthorEmail(info), password);
      var pre := [GetPage(pageId)] + [GetPageInfo(pageId)];
      if author.outcome.Fail? {
        assert run == Run(pre + author.calls, ErrorMessage(author.outcome.message));
        var n := |author.calls| - 1;
        assert pre + author.calls == (pre + author.calls[..n]) + [author.calls[n]];
        StopsAfter(replies, pre + author.calls[..n], author.calls[n], run.message);
      } else {
        assert run == Run(pre + author.calls + [GetProperties(pageId)], ErrorMessage(replies.properties.message));
        StopsAfter(replies, pre + author.calls, GetProperties(pageId), run.message);
      }
    }
  }

  /** The runs that reach the create-or-update request. */
  lemma PublishStopsAtFailure(replies: Replies, pageId: string, password: string)
    requires ReachesPublish(replies, password)
    ensures StopsAtFailure(replies, Publish(replies, pageId, password))
  {
    var run := Publish(replies, pageId, password);
    PublishingRun(replies, pageId, password);
    PreambleSucceeds(replies, pageId, password);
    var pre := Preamble(replies, pageId, password);
    var info := replies.pageInfo.value;
    var props := replies.properties.value;
    var storedId := StoredPageId(props);
    if Truthy(storedId) {
      var update := PutPage(storedId, Cleaned(replies), PublishStatus);
      if replies.pageUpdated.Fail? {
        assert run.message == ErrorMessage(replies.pageUpdated.message);
        StopsAfter(replies, pre, update, run.message);
      } else {
        assert run.message == Outcome(FailureOfReply(replies.metadataUpdated));
        StopsAfter(replies, pre + [update], PutProperty(pageId, PropertyKey, LinkValue(storedId, StoredImages(props))), run.message);
      }
    } else {
      var authorId := AuthorStep(replies, AuthorName(info), AuthorEmail(info), password).outcome.value;
      var create := PostPage(Title(info), Cleaned(replies), PublishStatus, authorId);
      if replies.newPage.Fail? {
        assert run.message == ErrorMessage(replies.newPage.message);
        StopsAfter(replies, pre, create, run.message);
      } else {
        assert run.message == Outcome(FailureOfReply(replies.metadataUpdated));
        StopsAfter(replies, pre + [create], PutProperty(pageId, PropertyKey, LinkValue(replies.newPage.value, StoredImages(props))), run.message);
      }
    }
  }

  /** Every request before publishing succeeded in a run that publishes. */
  lemma PreambleSucceeds(replies: Replies, pageId: string, password: string)
    requires ReachesPublish(replies, password)
    ensures forall c :: c in Preamble(replies, pageId, password) ==> FailureOf(replies, c).None?
  {
    var info := replies.pageInfo.value;
    var author := AuthorStep(replies, AuthorName(info), AuthorEmail(info), password);
    AuthorStopsAtFailure(replies, AuthorName(info), AuthorEmail(info), password);
    forall c | c in author.calls
      ensures FailureOf(replies, c).None?
    {
      var i :| 0 <= i < |author.calls| && author.calls[i] == c;
    }
  }

  /** The id a publishing run links the page to: the stored one when truthy,
      otherwise the id of the page it created. */
  function LinkedId(replies: Replies): Scalar
    requires replies.properties.Ok? && (Truthy(StoredPageId(replies.properties.value)) || replies.newPage.Ok?)
  {
    var storedId := StoredPageId(replies.properties.value);
    if Truthy(storedId) then storedId else replies.newPage.value
  }

  /** A run that stops at its first failure reports success exactly when
      none of its requests failed. */
  lemma SuccessWhenNoFailure(replies: Replies, run: Run)
    requires StopsAtFailure(replies, run)
    ensures run.message == Success <==> forall c :: c in run.calls ==> FailureOf(replies, c).None?
  {
    var last := run.calls[|run.calls| - 1];
    ErrorsAreNotSuccess();
    if run.message == Success {
      forall c | c in run.calls
        ensures FailureOf(replies, c).None?
      {
        var i :| 0 <= i < |run.calls| && run.calls[i] == c;
      }
    } else {
      assert last in run.calls;
    }
  }

  /** A run succeeds exactly when every request it makes succeeds. */
  lemma SuccessIffAllSucceed(replies: Replies, pageId: string, password: string)
    ensures var run := Publish(replies, pageId, password);
      run.message == Success <==> forall c :: c in run.calls ==> FailureOf(replies, c).None?
  {
    RunStopsAtFirstFailure(replies, pageId, password);
    SuccessWhenNoFailure(replies, Publish(replies, pageId, password));
  }

  /** A successful run's last request writes back, under `wordpress`, the
      page id it published to and the image map it read, unchanged. */
  lemma SuccessWritesBack(replies: Replies, pageId: string, password: string)
    requires Publish(replies, pageId, password).message == Success
    ensures ReachesPublish(replies, password)
    ensures Truthy(StoredPageId(replies.properties.value)) || replies.newPage.Ok?
    ensures var calls := Publish(replies, pageId, password).calls;
      calls[|calls| - 1] == PutProperty(pageId, PropertyKey, LinkValue(LinkedId(replies), StoredImages(replies.properties.value)))
  {
    if !ReachesPublish(replies, password) {
      ReadStopsWithError(replies, pageId, password);
    }
    PublishingRun(replies, pageId, password);
    ErrorsAreNotSuccess();
  }

  /** No error result reads as the success message. */
  lemma ErrorsAreNotSuccess()
    ensures forall m :: ErrorMessage(m) != Success
  {
    forall m
      ensures ErrorMessage(m) != Success
    {
      assert ErrorMessage(m)[0] != Success[0];
    }
  }

  /** A run that stops before publishing reports an error. */
  lemma ReadStopsWithError(replies: Replies, pageId: string, password: string)
    requires !ReachesPublish(replies, password)
    ensures Publish(replies, pageId, password).message != Success
  {
    var message := Publish(replies, pageId, password).message;
    assert message[0] == 'E';
  }

  /** Once the page body and its metadata are read, the run resolves the
      author next. */
  lemma ResolvesAuthorThird(replies: Replies, pageId: string, password: string)
    requires replies.pageBody.Ok? && replies.pageInfo.Ok?
    ensures var info := replies.pageInfo.value;
      [GetPage(pageId), GetPageInfo(pageId)] + AuthorStep(replies, AuthorName(info), AuthorEmail(info), password).calls
        <= Publish(replies, pageId, password).calls
  {
    if ReachesPublish(replies, password) {
      PublishingRun(replies, pageId, password);
    }
  }

  /** Metadata without a title or an author: the author is searched for and,
      if absent, created as "Unknown Author" with "no-reply@example.com",
      and a new page is titled "No Title". */
  lemma DefaultsApplied(replies: Replies, pageId: string, password: string)
    requires replies.pageBody.Ok? && replies.pageInfo == Ok(PageInfo(None, None, None))
    ensures var calls := Publish(replies, pageId, password).calls;
      && |calls| >= 3
      && calls[2] == GetUsers(DefaultAuthorEmail)
      && (replies.userSearch == Ok([]) ==> calls[3] == PostUser(DefaultAuthorName, DefaultAuthorEmail, password))
    ensures ReachesPublish(replies, password) && !Truthy(StoredPageId(replies.properties.value)) ==>
      exists c :: c in Publish(replies, pageId, password).calls && c.PostPage? && c.title == DefaultTitle
  {
    var calls := Publish(replies, pageId, password).calls;
    ResolvesAuthorThird(replies, pageId, password);
    var prefix := [GetPage(pageId), GetPageInfo(pageId)] + AuthorStep(replies, DefaultAuthorName, DefaultAuthorEmail, password).calls;
    assert calls[2] == prefix[2];
    if replies.userSearch == Ok([]) {
      assert calls[3] == prefix[3];
    }
    if ReachesPublish(replies, password) && !Truthy(StoredPageId(replies.properties.value)) {
      CreatesWhenUnlinked(replies, pageId, password);
      var authorId := AuthorStep(replies, DefaultAuthorName, DefaultAuthorEmail, password).outcome.value;
      var create := PostPage(DefaultTitle, Cleaned(replies), PublishStatus, authorId);
      assert create in multiset(calls);
    }
  }

  /** The link a run stored: the value of its last request when the run
      succeeded and that request wrote the page's properties. */
  function StoredLinkOf(run: Run): Option<LinkValue> {
    if run.message == Success && run.calls != [] && run.calls[|run.calls| - 1].PutProperty? then
      Some(run.calls[|run.calls| - 1].value)
    else None
  }

  /** Running again after a successful run updates the same page: the second
      run reads back the link the first stored, so with a truthy id it updates
      that page, creates none, and, when it succeeds, stores the same link
      again (the same id and the same image map). */
  lemma SecondRunUpdatesSamePage(first: Replies, second: Replies, pageId: string, password1: string, password2: string, link: LinkValue)
    requires StoredLinkOf(Publish(first, pageId, password1)) == Some(link)
    requires second.properties == Ok(Some(StoredLink(link.wpPageId, Some(link.wpImageId))))
    requires Truthy(link.wpPageId) && ReachesPublish(second, password2)
    ensures var run := Publish(second, pageId, password2);
      && multiset(run.calls)[PutPage(link.wpPageId, Cleaned(second), PublishStatus)] == 1
      && (forall c :: c in run.calls ==> !c.PostPage?)
      && (run.message == Success ==> StoredLinkOf(run) == Some(link))
  {
    UpdatesWhenLinked(second, pageId, password2);
    if Publish(second, pageId, password2).message == Success {
      SuccessWritesBack(second, pageId, password2);
    }
  }
}
