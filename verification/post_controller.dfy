/** The post controller: create, get, update and delete as transitions over the
    post store. The requester of a mutation is the identity the access guard
    has already verified. */
module PostController {
  import opened Results
  import opened Primitives

  /** Identifier the post store assigns to a new post. */
  type PostId = nat

  /** A stored post. `createdAt` is the creation timestamp in milliseconds. */
  datatype Post = Post(title: string, content: string, author: UserId, createdAt: nat)

  /** A post together with its identifier, as handlers return it. */
  datatype Entry = Entry(id: PostId, post: Post)

  /** The posts collection keyed by identifier, and the identifier the next
      created post receives. */
  datatype PostStore = PostStore(posts: map<PostId, Post>, nextId: nat)

  /** The answers a mutation gives instead of success: 404 'Post not found' and
      403 'Unauthorized'. */
  datatype PostError = NotFound | Forbidden

  /** The store invariant: every stored identifier was handed out already, so a
      new post never reuses one. */
  ghost predicate Valid(s: PostStore) {
    forall id :: id in s.posts ==> id < s.nextId
  }

  /** `createPost`: stores a post by the authenticated requester with the given
      title and content under a fresh identifier. */
  function CreatePost(s: PostStore, requester: UserId, title: string, content: string, nowMs: nat)
    : (t: Transition<Entry, PostError, PostStore>)
    ensures t.result.Ok?
    ensures t.result.value.post == Post(title, content, requester, nowMs)
    ensures t.result.value.id >= s.nextId
    ensures Valid(s) ==> t.result.value.id !in s.posts
    ensures t.next.posts == s.posts[t.result.value.id := t.result.value.post]
    ensures t.next.nextId > t.result.value.id && t.next.nextId >= s.nextId
  {
    var entry := Entry(s.nextId, Post(title, content, requester, nowMs));
    Transition(Ok(entry), PostStore(s.posts[entry.id := entry.post], s.nextId + 1))
  }

  /** `getPostById`: the stored post, or NotFound. */
  function GetPostById(s: PostStore, id: PostId): (r: Result<Entry, PostError>)
    ensures r.Ok? <==> id in s.posts
    ensures r.Ok? ==> r.value.id == id && r.value.post == s.posts[id]
    ensures r.Err? ==> r.error == NotFound
  {
    if id in s.posts then Ok(Entry(id, s.posts[id])) else Err(NotFound)
  }

  /** A body field counts as supplied when it is present and not the empty
      string; absent and empty both fall through the `||` to the old value. */
  predicate Supplied(field: Option<string>) {
    field.Some? && field.value != ""
  }

  /** The value a field takes after an update. */
  function Merge(field: Option<string>, current: string): (r: string) {
    if Supplied(field) then field.value else current
  }

  /** `updatePost`: NotFound before Forbidden, and for the author a merge of the
      supplied fields into the stored post. */
  function UpdatePost(s: PostStore, requester: UserId, id: PostId, title: Option<string>, content: Option<string>)
    : (t: Transition<Entry, PostError, PostStore>)
    ensures id !in s.posts ==> t == Transition(Err(NotFound), s)
    ensures id in s.posts && s.posts[id].author != requester ==> t == Transition(Err(Forbidden), s)
    ensures id in s.posts && s.posts[id].author == requester ==>
              && t.result.Ok?
              && t.result.value.id == id
              && t.next == PostStore(s.posts[id := t.result.value.post], s.nextId)
              && t.result.value.post.author == s.posts[id].author
              && t.result.value.post.createdAt == s.posts[id].createdAt
              && (Supplied(title) ==> t.result.value.post.title == title.value)
              && (!Supplied(title) ==> t.result.value.post.title == s.posts[id].title)
              && (Supplied(content) ==> t.result.value.post.content == content.value)
              && (!Supplied(content) ==> t.result.value.post.content == s.posts[id].content)
  {
    if id !in s.posts then Transition(Err(NotFound), s)
    else
      var post := s.posts[id];
      if post.author != requester then Transition(Err(Forbidden), s)
      else
        var updated := post.(title := Merge(title, post.title), content := Merge(content, post.content));
        Transition(Ok(Entry(id, updated)), PostStore(s.posts[id := updated], s.nextId))
  }

  /** `deletePost`: NotFound before Forbidden, and for the author the removal of
      exactly the target post. */
  function DeletePost(s: PostStore, requester: UserId, id: PostId): (t: Transition<(), PostError, PostStore>)
    ensures id !in s.posts ==> t == Transition(Err(NotFound), s)
    ensures id in s.posts && s.posts[id].author != requester ==> t == Transition(Err(Forbidden), s)
    ensures id in s.posts && s.posts[id].author == requester ==>
              && t.result.Ok?
              && t.next.nextId == s.nextId
              && t.next.posts.Keys == s.posts.Keys - {id}
              && forall other :: other in t.next.posts ==> t.next.posts[other] == s.posts[other]
  {
    if id !in s.posts then Transition(Err(NotFound), s)
    else if s.posts[id].author != requester then Transition(Err(Forbidden), s)
    else Transition(Ok(()), PostStore(s.posts - {id}, s.nextId))
  }

  /** Entries ordered newest first: creation times never increase along the list. */
  predicate NewestFirst(es: seq<Entry>) {
    forall i, j :: 0 <= i < j < |es| ==> es[i].post.createdAt >= es[j].post.createdAt
  }

  /** No identifier appears twice in the list. */
  predicate DistinctIds(es: seq<Entry>) {
    forall i, j :: 0 <= i < j < |es| ==> es[i].id != es[j].id
  }

  /** The head of a newest-first list is at least as new as every later entry. */
  lemma HeadIsNewest(es: seq<Entry>)
    requires NewestFirst(es) && |es| > 0
    ensures forall x :: x in es[1..] ==> es[0].post.createdAt >= x.post.createdAt
    ensures forall x :: x in es[1..] ==> x in es
  {
  }

  /** Putting an entry in front of a list keeps it newest first when the entry
      is at least as new as every entry of the list, and keeps identifiers
      distinct when its identifier is new to the list. */
  lemma Prepend(h: Entry, rest: seq<Entry>)
    ensures NewestFirst(rest) && (forall x :: x in rest ==> h.post.createdAt >= x.post.createdAt)
            ==> NewestFirst([h] + rest)
    ensures DistinctIds(rest) && (forall x :: x in rest ==> x.id != h.id)
            ==> DistinctIds([h] + rest)
  {
  }

  /** Inserts `e` into a newest-first list after every entry at least as new. */
  function InsertNewestFirst(es: seq<Entry>, e: Entry): (r: seq<Entry>)
    requires NewestFirst(es)
    ensures NewestFirst(r)
    ensures |r| == |es| + 1
    ensures forall x :: x in r <==> x == e || x in es
    ensures DistinctIds(es) && (forall x :: x in es ==> x.id != e.id) ==> DistinctIds(r)
    decreases |es|
  {
    if |es| == 0 then [e]
    else if es[0].post.createdAt >= e.post.createdAt then
      var rest := InsertNewestFirst(es[1..], e);
      HeadIsNewest(es);
      Prepend(es[0], rest);
      [es[0]] + rest
    else [e] + es
  }

  /** Orders entries newest first by insertion; the result holds the same
      entries as the input. */
  function SortNewestFirst(es: seq<Entry>): (r: seq<Entry>)
    ensures NewestFirst(r)
    ensures |r| == |es|
    ensures forall x :: x in r <==> x in es
    ensures DistinctIds(es) ==> DistinctIds(r)
    decreases |es|
  {
    if |es| == 0 then []
    else InsertNewestFirst(SortNewestFirst(es[..|es| - 1]), es[|es| - 1])
  }

  /** Insertion adds exactly the one entry: the result is a permutation of the
      input with `e` added. */
  lemma {:induction false} InsertPermutes(es: seq<Entry>, e: Entry)
    requires NewestFirst(es)
    ensures multiset(InsertNewestFirst(es, e)) == multiset(es) + multiset{e}
    decreases |es|
  {
    if |es| > 0 && es[0].post.createdAt >= e.post.createdAt {
      InsertPermutes(es[1..], e);
      assert es == [es[0]] + es[1..];
    }
  }

  /** A non-empty list holds the entries of its prefix plus its last entry. */
  lemma SplitLast(es: seq<Entry>)
    requires |es| > 0
    ensures multiset(es) == multiset(es[..|es| - 1]) + multiset{es[|es| - 1]}
  {
    assert es == es[..|es| - 1] + [es[|es| - 1]];
  }

  /** Sorting only reorders: the result is a permutation of the input. */
  lemma {:induction false} SortPermutes(es: seq<Entry>)
    ensures multiset(SortNewestFirst(es)) == multiset(es)
    decreases |es|
  {
    if |es| > 0 {
      var init, last := es[..|es| - 1], es[|es| - 1];
      var sorted := SortNewestFirst(init);
      assert SortNewestFirst(es) == InsertNewestFirst(sorted, last);
      SortPermutes(init);
      InsertPermutes(sorted, last);
      SplitLast(es);
    }
  }

  /** The stored posts whose identifiers are below `n`, in identifier order. */
  function StoredBelow(posts: map<PostId, Post>, n: nat): (r: seq<Entry>)
    ensures forall e :: e in r ==> e.id < n && e.id in posts && posts[e.id] == e.post
    ensures forall id :: id in posts && id < n ==> Entry(id, posts[id]) in r
    ensures DistinctIds(r)
    decreases n
  {
    if n == 0 then []
    else
      var prefix := StoredBelow(posts, n - 1);
      if n - 1 in posts then prefix + [Entry(n - 1, posts[n - 1])] else prefix
  }

  /** `getAllPosts`: every stored post exactly once, newest first. */
  function GetAllPosts(s: PostStore): (r: seq<Entry>)
    requires Valid(s)
    ensures NewestFirst(r)
    ensures DistinctIds(r)
    ensures forall e :: e in r ==> e.id in s.posts && s.posts[e.id] == e.post
    ensures forall id :: id in s.posts ==> Entry(id, s.posts[id]) in r
  {
    SortNewestFirst(StoredBelow(s.posts, s.nextId))
  }

  /** Only the recorded author may mutate an existing post: update and delete
      succeed exactly when the requester is the author. */
  lemma OnlyAuthorMutates(s: PostStore, requester: UserId, id: PostId, title: Option<string>, content: Option<string>)
    requires id in s.posts
    ensures UpdatePost(s, requester, id, title, content).result.Ok? <==> requester == s.posts[id].author
    ensures DeletePost(s, requester, id).result.Ok? <==> requester == s.posts[id].author
  {
  }

  /** Creating a post and then reading it back returns the same title, content
      and author. */
  lemma CreateThenGet(s: PostStore, requester: UserId, title: string, content: string, nowMs: nat)
    ensures var t := CreatePost(s, requester, title, content, nowMs);
            GetPostById(t.next, t.result.value.id) == Ok(Entry(t.result.value.id, Post(title, content, requester, nowMs)))
  {
  }

  /** What a successful update answers with is what a later read returns. */
  lemma UpdateThenGet(s: PostStore, requester: UserId, id: PostId, title: Option<string>, content: Option<string>)
    requires UpdatePost(s, requester, id, title, content).result.Ok?
    ensures var t := UpdatePost(s, requester, id, title, content);
            GetPostById(t.next, id) == t.result
  {
  }

  /** After a successful delete the post is gone. */
  lemma DeleteThenGet(s: PostStore, requester: UserId, id: PostId)
    requires DeletePost(s, requester, id).result.Ok?
    ensures GetPostById(DeletePost(s, requester, id).next, id) == Err(NotFound)
  {
  }

  /** An update that supplies neither field leaves the store as it was. */
  lemma EmptyUpdateChangesNothing(s: PostStore, requester: UserId, id: PostId, title: Option<string>, content: Option<string>)
    requires !Supplied(title) && !Supplied(content)
    ensures UpdatePost(s, requester, id, title, content).next == s
  {
  }

  /** Repeating an update has no further effect. */
  lemma UpdateIdempotent(s: PostStore, requester: UserId, id: PostId, title: Option<string>, content: Option<string>)
    ensures var once := UpdatePost(s, requester, id, title, content).next;
            UpdatePost(once, requester, id, title, content).next == once
  {
  }

  /** A request to the post controller, with its already-verified requester. */
  datatype PostOp =
    | Create(requester: UserId, title: string, content: string, nowMs: nat)
    | Update(requester: UserId, id: PostId, newTitle: Option<string>, newContent: Option<string>)
    | Delete(requester: UserId, id: PostId)

  /** The store after one request. */
  function Apply(s: PostStore, op: PostOp): (s': PostStore)
    ensures Valid(s) ==> Valid(s')
    ensures s'.nextId >= s.nextId
    ensures Valid(s) ==> forall id :: id in s.posts && id in s'.posts ==>
              s'.posts[id].author == s.posts[id].author && s'.posts[id].createdAt == s.posts[id].createdAt
    ensures forall id :: id in s'.posts && id !in s.posts ==> id >= s.nextId
  {
    match op
    case Create(requester, title, content, nowMs) => CreatePost(s, requester, title, content, nowMs).next
    case Update(requester, id, title, content) => UpdatePost(s, requester, id, title, content).next
    case Delete(requester, id) => DeletePost(s, requester, id).next
  }

  /** The store after a sequence of requests, served one after another. */
  function Run(s: PostStore, ops: seq<PostOp>): (s': PostStore)
    decreases |ops|
  {
    if |ops| == 0 then s else Run(Apply(s, ops[0]), ops[1..])
  }

  /** Running requests keeps the store valid and never lowers the next identifier. */
  lemma {:induction false} RunPreservesValid(s: PostStore, ops: seq<PostOp>)
    requires Valid(s)
    ensures Valid(Run(s, ops))
    ensures Run(s, ops).nextId >= s.nextId
    decreases |ops|
  {
    if |ops| > 0 {
      RunPreservesValid(Apply(s, ops[0]), ops[1..]);
    }
  }

  /** An identifier that was handed out but is no longer stored never comes back. */
  lemma {:induction false} DeletedStaysDeleted(s: PostStore, ops: seq<PostOp>, id: PostId)
    requires Valid(s)
    requires id !in s.posts && id < s.nextId
    ensures id !in Run(s, ops).posts
    decreases |ops|
  {
    if |ops| > 0 {
      DeletedStaysDeleted(Apply(s, ops[0]), ops[1..], id);
    }
  }

  /** A post's author and creation time never change over its lifetime: if an
      identifier is stored before and after any run of requests, it names a
      post with the same author and timestamp. */
  lemma {:induction false} AuthorNeverChanges(s: PostStore, ops: seq<PostOp>, id: PostId)
    requires Valid(s)
    requires id in s.posts && id in Run(s, ops).posts
    ensures Run(s, ops).posts[id].author == s.posts[id].author
    ensures Run(s, ops).posts[id].createdAt == s.posts[id].createdAt
    decreases |ops|
  {
    if |ops| > 0 {
      var s1 := Apply(s, ops[0]);
      if id in s1.posts {
        AuthorNeverChanges(s1, ops[1..], id);
      } else {
        DeletedStaysDeleted(s1, ops[1..], id);
        assert false;
      }
    }
  }
}
