/** The HTTP surface: the access guard in front of the mutating post routes and
    a dispatcher that turns each request into a reply and the next state. */
module Api {
  import opened Results
  import opened Primitives
  import Auth = AuthController
  import Posts = PostController

  /** Both stores. */
  datatype State = State(users: Auth.UserStore, posts: Posts.PostStore)

  /** Both store invariants. */
  ghost predicate Valid(s: State) {
    Auth.Valid(s.users) && Posts.Valid(s.posts)
  }

  /** What the surroundings supply to one request: the primitives, the signing
      secret, the salt a registration would use, and the clock in milliseconds. */
  datatype Env = Env(crypto: Crypto, secret: Secret, salt: Salt, nowMs: nat)

  /** Why the guard turns a request away. */
  datatype GuardError = MissingToken | InvalidToken

  /** The access guard: no bearer token, or one the signer does not accept at
      the current time, stops the request; otherwise the token's `id` becomes
      the requester. The user store is not consulted. */
  function Authenticate(env: Env, bearer: Option<Token>): (r: Result<UserId, GuardError>)
    ensures r == Err(MissingToken) <==> bearer.None?
    ensures r.Ok? <==> bearer.Some? && Accepts(env.crypto, env.secret, bearer.value, env.nowMs)
    ensures r.Ok? ==> r.value == bearer.value.claims.id
  {
    match bearer
    case None => Err(MissingToken)
    case Some(token) =>
      if Accepts(env.crypto, env.secret, token, env.nowMs) then Ok(token.claims.id) else Err(InvalidToken)
  }

  /** A request as the routes receive it. */
  datatype Request =
    | Register(name: string, username: string, password: string)
    | Login(username: string, password: string)
    | ListPosts
    | GetPost(id: Posts.PostId)
    | CreatePost(bearer: Option<Token>, title: string, content: string)
    | UpdatePost(bearer: Option<Token>, id: Posts.PostId, newTitle: Option<string>, newContent: Option<string>)
    | DeletePost(bearer: Option<Token>, id: Posts.PostId)
  {
    /** The routes that sit behind the access guard. */
    predicate Guarded() {
      CreatePost? || UpdatePost? || DeletePost?
    }
  }

  /** The JSON body of a reply. */
  datatype Body =
    | Message(text: string)
    | Rejected(reason: GuardError)
    | PostBody(entry: Posts.Entry)
    | PostList(entries: seq<Posts.Entry>)
    | SessionBody(session: Auth.Session)

  datatype Reply = Reply(status: nat, body: Body)

  /** The reply to a request and the state it leaves behind. */
  datatype Served = Served(reply: Reply, next: State)

  function AuthFailure(e: Auth.AuthError): (r: Reply) {
    match e
    case UsernameTaken => Reply(400, Message("Username already exists"))
    case UserNotFound => Reply(404, Message("User not found"))
    case InvalidCredentials => Reply(400, Message("Invalid credentials"))
  }

  function PostFailure(e: Posts.PostError): (r: Reply) {
    match e
    case NotFound => Reply(404, Message("Post not found"))
    case Forbidden => Reply(403, Message("Unauthorized"))
  }

  function GuardFailure(e: GuardError): (r: Reply) {
    Reply(401, Rejected(e))
  }

  /** Serves one request. Every failure leaves the state as it was; reads and
      logins never change it; each route touches only its own store; a guarded
      route without an accepted token is turned away before its handler runs. */
  function Handle(env: Env, s: State, req: Request): (out: Served)
    requires Posts.Valid(s.posts)
    ensures out.reply.status >= 400 ==> out.next == s
    ensures req.Login? || req.ListPosts? || req.GetPost? ==> out.next == s
    ensures req.Register? ==> out.next.posts == s.posts
    ensures req.Guarded() ==> out.next.users == s.users
    ensures req.Guarded() && Authenticate(env, req.bearer).Err? ==>
              out == Served(GuardFailure(Authenticate(env, req.bearer).error), s)
    ensures req.Register? ==>
              var t := Auth.Register(env.crypto, env.salt, s.users, req.name, req.username, req.password);
              && out.next.users == t.next
              && (t.result.Ok? ==> out.reply == Reply(201, Message("User registered successfully")))
              && (t.result.Err? ==> out.reply == AuthFailure(t.result.error))
    ensures req.Login? ==>
              var r := Auth.Login(env.crypto, env.secret, env.nowMs, s.users, req.username, req.password);
              && (r.Ok? ==> out.reply == Reply(200, SessionBody(r.value)))
              && (r.Err? ==> out.reply == AuthFailure(r.error))
    ensures req.ListPosts? ==> out.reply == Reply(200, PostList(Posts.GetAllPosts(s.posts)))
    ensures req.GetPost? ==>
              var r := Posts.GetPostById(s.posts, req.id);
              && (r.Ok? ==> out.reply == Reply(200, PostBody(r.value)))
              && (r.Err? ==> out.reply == PostFailure(r.error))
    ensures req.CreatePost? && Authenticate(env, req.bearer).Ok? ==>
              var t := Posts.CreatePost(s.posts, req.bearer.value.claims.id, req.title, req.content, env.nowMs);
              out == Served(Reply(201, PostBody(t.result.value)), s.(posts := t.next))
    ensures req.UpdatePost? && Authenticate(env, req.bearer).Ok? ==>
              var t := Posts.UpdatePost(s.posts, req.bearer.value.claims.id, req.id, req.newTitle, req.newContent);
              && out.next.posts == t.next
              && (t.result.Ok? ==> out.reply == Reply(200, PostBody(t.result.value)))
              && (t.result.Err? ==> out.reply == PostFailure(t.result.error))
    ensures req.DeletePost? && Authenticate(env, req.bearer).Ok? ==>
              var t := Posts.DeletePost(s.posts, req.bearer.value.claims.id, req.id);
              && out.next.posts == t.next
              && (t.result.Ok? ==> out.reply == Reply(200, Message("Post deleted")))
              && (t.result.Err? ==> out.reply == PostFailure(t.result.error))
  {
    match req
    case Register(name, username, password) =>
      var t := Auth.Register(env.crypto, env.salt, s.users, name, username, password);
      (match t.result
       case Ok(_) => Served(Reply(201, Message("User registered successfully")), s.(users := t.next))
       case Err(e) => Served(AuthFailure(e), s))
    case Login(username, password) =>
      (match Auth.Login(env.crypto, env.secret, env.nowMs, s.users, username, password)
       case Ok(session) => Served(Reply(200, SessionBody(session)), s)
       case Err(e) => Served(AuthFailure(e), s))
    case ListPosts =>
      Served(Reply(200, PostList(Posts.GetAllPosts(s.posts))), s)
    case GetPost(id) =>
      (match Posts.GetPostById(s.posts, id)
       case Ok(entry) => Served(Reply(200, PostBody(entry)), s)
       case Err(e) => Served(PostFailure(e), s))
    case CreatePost(bearer, title, content) =>
      (match Authenticate(env, bearer)
       case Err(g) => Served(GuardFailure(g), s)
       case Ok(requester) =>
         var t := Posts.CreatePost(s.posts, requester, title, content, env.nowMs);
         Served(Reply(201, PostBody(t.result.value)), s.(posts := t.next)))
    case UpdatePost(bearer, id, newTitle, newContent) =>
      (match Authenticate(env, bearer)
       case Err(g) => Served(GuardFailure(g), s)
       case Ok(requester) =>
         var t := Posts.UpdatePost(s.posts, requester, id, newTitle, newContent);
         (match t.result
          case Ok(entry) => Served(Reply(200, PostBody(entry)), s.(posts := t.next))
          case Err(e) => Served(PostFailure(e), s)))
    case DeletePost(bearer, id) =>
      match Authenticate(env, bearer)
      case Err(g) => Served(GuardFailure(g), s)
      case Ok(requester) =>
        var t := Posts.DeletePost(s.posts, requester, id);
        match t.result
        case Ok(_) => Served(Reply(200, Message("Post deleted")), s.(posts := t.next))
        case Err(e) => Served(PostFailure(e), s)
  }

  /** Every request keeps both store invariants. */
  lemma HandlePreservesValid(env: Env, s: State, req: Request)
    requires Valid(s)
    ensures Valid(Handle(env, s, req).next)
  {
  }

  /** Through the guard, an update or delete of a stored post succeeds exactly
      when an accepted token names the post's author. */
  lemma GuardedMutationOnlyByAuthor(env: Env, s: State, req: Request)
    requires Posts.Valid(s.posts)
    requires (req.UpdatePost? || req.DeletePost?) && req.id in s.posts.posts
    ensures Handle(env, s, req).reply.status == 200
            <==> Authenticate(env, req.bearer).Ok? && req.bearer.value.claims.id == s.posts.posts[req.id].author
  {
  }

  /** A token issued by login lets its holder through the guard as the logged-in
      user until the token expires. */
  lemma LoginTokenPassesGuard(env: Env, s: State, username: string, password: string, later: Env)
    requires Sound(env.crypto)
    requires Posts.Valid(s.posts)
    requires Handle(env, s, Login(username, password)).reply.status == 200
    requires later.crypto == env.crypto && later.secret == env.secret
    ensures var body := Handle(env, s, Login(username, password)).reply.body;
            && body.SessionBody?
            && (Authenticate(later, Some(body.session.token)).Ok?
                <==> later.nowMs < (env.nowMs / 1000 + TokenLifetime) * 1000)
            && (Authenticate(later, Some(body.session.token)).Ok? ==>
                Authenticate(later, Some(body.session.token)).value == body.session.user.id)
  {
  }

  /** A walk-through: Alice registers, logs in and posts with
      her token; Bob registers and logs in, and his attempt to edit Alice's post
      is refused with 403 and changes nothing. */
  lemma AliceAndBob(c: Crypto, secret: Secret, salt: Salt, nowMs: nat)
    requires Sound(c)
    ensures var env := Env(c, secret, salt, nowMs);
            var s0 := State(Auth.UserStore([], 0), Posts.PostStore(map[], 0));
            var r1 := Handle(env, s0, Register("Alice", "alice", "secret"));
            var r2 := Handle(env, r1.next, Login("alice", "secret"));
            var r3 := Handle(env, r2.next, CreatePost(Some(r2.reply.body.session.token), "Hi", "World"));
            var r4 := Handle(env, r3.next, Register("Bob", "bob", "hunter2"));
            var r5 := Handle(env, r4.next, Login("bob", "hunter2"));
            var r6 := Handle(env, r5.next, UpdatePost(Some(r5.reply.body.session.token),
                                                      r3.reply.body.entry.id, Some("Mine"), None));
            && r1.reply.status == 201
            && r2.reply.status == 200 && r2.reply.body.SessionBody?
            && r3.reply.status == 201 && r3.reply.body.PostBody?
            && r3.reply.body.entry.post.author == r2.reply.body.session.user.id
            && r5.reply.status == 200 && r5.reply.body.SessionBody?
            && r6.reply == Reply(403, Message("Unauthorized"))
            && r6.next == r5.next
  {
  }
}
