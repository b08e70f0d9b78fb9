/**
 * `PostService` as state transitions over the live posts. `softDelete`
 * takes a post out of `live`; `nextId` is the auto-increment counter, so a
 * deleted id is never handed out again. Hashing is the parameter `hash`
 * (standing for `bcrypt.hash`). The service calls `existsPost.equalsPassword`,
 * which the entity does not define; the model supplies it as the parameter
 * `verify(plaintext, stored hash)`.
 */
module PostService {
  import opened PostEntity

  datatype PostError = PostNotFound | PasswordMismatch

  datatype Store = Store(live: map<int, Post>, nextId: int)

  /** What `getPost` returns or throws. */
  datatype Reply = Found(post: Post) | Missing(error: PostError)

  datatype Outcome = Done | Failed(error: PostError)

  /** A mutation: the store afterwards and whether it succeeded. */
  datatype Step = Step(store: Store, outcome: Outcome)

  /** `addPost`: the store afterwards and the inserted id. */
  datatype Inserted = Inserted(store: Store, id: int)

  /** Ids are positive, below the counter, and each live post carries its own id. */
  predicate Valid(s: Store)
  {
    && s.nextId >= 1
    && forall id :: id in s.live ==> 1 <= id < s.nextId && s.live[id].id == id
  }

  /** Every stored password is the hash of some plaintext. */
  ghost predicate HashedOnly(s: Store, hash: string -> string)
  {
    forall id :: id in s.live ==> exists p :: hash(p) == s.live[id].password
  }

  /** `addPost`: insert one post carrying the hash of its password. */
  function AddPost(s: Store, hash: string -> string, author: string, password: string, title: string, content: string): (r: Inserted)
    requires Valid(s)
    ensures Valid(r.store)
    ensures r.id !in s.live && r.store.live.Keys == s.live.Keys + {r.id}
    ensures r.store.live[r.id].password == hash(password)
    ensures r.store.live[r.id].author == author && r.store.live[r.id].title == title
            && r.store.live[r.id].content == content
    ensures forall id :: id in s.live ==> r.store.live[id] == s.live[id]
    ensures |r.store.live| == |s.live| + 1
  {
    var id := s.nextId;
    Inserted(Store(s.live[id := Post(id, author, hash(password), title, content)], id + 1), id)
  }

  /** `getPost`: the live post with that id, or PostNotFound. */
  function GetPost(s: Store, id: int): (r: Reply)
    ensures r.Missing? <==> id !in s.live
    ensures r.Missing? ==> r.error == PostNotFound
    ensures r.Found? ==> r.post == s.live[id]
  {
    if id in s.live then Found(s.live[id]) else Missing(PostNotFound)
  }

  /** `s'` differs from `s` only in the author, title and content of post `id`. */
  predicate EditedOnly(s: Store, s': Store, id: int, author: string, title: string, content: string)
    requires id in s.live
  {
    && s'.nextId == s.nextId
    && s'.live.Keys == s.live.Keys
    && s'.live[id] == Post(s.live[id].id, author, s.live[id].password, title, content)
    && forall k :: k in s.live && k != id ==> s'.live[k] == s.live[k]
  }

  /** `updatePost`: existence check, then password check, then the edit. */
  function UpdatePost(s: Store, verify: (string, string) -> bool, id: int, password: string,
                      author: string, title: string, content: string): (r: Step)
    ensures id !in s.live ==> r == Step(s, Failed(PostNotFound))
    ensures id in s.live && !verify(password, s.live[id].password) ==> r == Step(s, Failed(PasswordMismatch))
    ensures r.outcome == Done <==> id in s.live && verify(password, s.live[id].password)
    ensures r.outcome == Done ==> EditedOnly(s, r.store, id, author, title, content)
    ensures Valid(s) ==> Valid(r.store)
  {
    if id !in s.live then Step(s, Failed(PostNotFound))
    else
      var post := s.live[id];
      if !verify(password, post.password) then Step(s, Failed(PasswordMismatch))
      else Step(s.(live := s.live[id := post.(author := author, title := title, content := content)]), Done)
  }

  /** `deletePost`: the same two guards, then the soft delete. */
  function DeletePost(s: Store, verify: (string, string) -> bool, id: int, password: string): (r: Step)
    ensures id !in s.live ==> r == Step(s, Failed(PostNotFound))
    ensures id in s.live && !verify(password, s.live[id].password) ==> r == Step(s, Failed(PasswordMismatch))
    ensures r.outcome == Done <==> id in s.live && verify(password, s.live[id].password)
    ensures r.outcome == Done ==>
      && r.store.nextId == s.nextId
      && r.store.live.Keys == s.live.Keys - {id}
      && forall k :: k in r.store.live ==> r.store.live[k] == s.live[k]
    ensures Valid(s) ==> Valid(r.store)
  {
    if id !in s.live then Step(s, Failed(PostNotFound))
    else if !verify(password, s.live[id].password) then Step(s, Failed(PasswordMismatch))
    else Step(s.(live := s.live - {id}), Done)
  }

  /** A new post can be read back at once, with the hashed password. */
  lemma AddThenGet(s: Store, hash: string -> string, author: string, password: string, title: string, content: string)
    requires Valid(s)
    ensures var r := AddPost(s, hash, author, password, title, content);
      GetPost(r.store, r.id) == Found(Post(r.id, author, hash(password), title, content))
  {
  }

  /** After a successful edit the post reads back edited and its password still verifies. */
  lemma UpdateThenGet(s: Store, verify: (string, string) -> bool, id: int, password: string,
                      author: string, title: string, content: string)
    requires Valid(s)
    requires UpdatePost(s, verify, id, password, author, title, content).outcome == Done
    ensures var s' := UpdatePost(s, verify, id, password, author, title, content).store;
      && GetPost(s', id) == Found(Post(id, author, s.live[id].password, title, content))
      && verify(password, GetPost(s', id).post.password)
  {
  }

  /** After a successful delete every operation on that id reports PostNotFound. */
  lemma DeleteThenNotFound(s: Store, verify: (string, string) -> bool, id: int, password: string,
                           password': string, author: string, title: string, content: string)
    requires DeletePost(s, verify, id, password).outcome == Done
    ensures var s' := DeletePost(s, verify, id, password).store;
      && GetPost(s', id) == Missing(PostNotFound)
      && UpdatePost(s', verify, id, password', author, title, content) == Step(s', Failed(PostNotFound))
      && DeletePost(s', verify, id, password') == Step(s', Failed(PostNotFound))
  {
  }

  // ---------------------------------------------------------------------
  // Sequences of requests
  // ---------------------------------------------------------------------

  datatype Request =
    | AddRequest(author: string, password: string, title: string, content: string)
    | GetRequest(id: int)
    | UpdateRequest(id: int, password: string, author: string, title: string, content: string)
    | DeleteRequest(id: int, password: string)

  function Apply(s: Store, hash: string -> string, verify: (string, string) -> bool, req: Request): (s': Store)
    requires Valid(s)
    ensures Valid(s')
    ensures s'.nextId >= s.nextId
  {
    match req
    case AddRequest(a, p, t, c) => AddPost(s, hash, a, p, t, c).store
    case GetRequest(_) => s
    case UpdateRequest(id, p, a, t, c) => UpdatePost(s, verify, id, p, a, t, c).store
    case DeleteRequest(id, p) => DeletePost(s, verify, id, p).store
  }

  /** The requests handled one after another. */
  function Run(s: Store, hash: string -> string, verify: (string, string) -> bool, reqs: seq<Request>): (s': Store)
    requires Valid(s)
    ensures Valid(s')
    ensures s'.nextId >= s.nextId
    decreases |reqs|
  {
    if |reqs| == 0 then s else Run(Apply(s, hash, verify, reqs[0]), hash, verify, reqs[1..])
  }

  /** An id below the counter that is not live never becomes live again. */
  lemma {:induction false} NeverRevived(s: Store, hash: string -> string, verify: (string, string) -> bool,
                                        reqs: seq<Request>, id: int)
    requires Valid(s) && id !in s.live && id < s.nextId
    ensures id !in Run(s, hash, verify, reqs).live
    decreases |reqs|
  {
    if |reqs| > 0 {
      NeverRevived(Apply(s, hash, verify, reqs[0]), hash, verify, reqs[1..], id);
    }
  }

  /** Deletion is terminal: once deleted, no later request brings the post back. */
  lemma DeleteIsTerminal(s: Store, hash: string -> string, verify: (string, string) -> bool,
                         id: int, password: string, reqs: seq<Request>)
    requires Valid(s)
    requires DeletePost(s, verify, id, password).outcome == Done
    ensures var s' := DeletePost(s, verify, id, password).store;
      GetPost(Run(s', hash, verify, reqs), id) == Missing(PostNotFound)
  {
    NeverRevived(DeletePost(s, verify, id, password).store, hash, verify, reqs, id);
  }

  /** One request keeps every stored password a hash image. */
  lemma ApplyKeepsHashes(s: Store, hash: string -> string, verify: (string, string) -> bool, req: Request)
    requires Valid(s) && HashedOnly(s, hash)
    ensures HashedOnly(Apply(s, hash, verify, req), hash)
  {
    var s1 := Apply(s, hash, verify, req);
    forall id | id in s1.live
      ensures exists p :: hash(p) == s1.live[id].password
    {
      match req
      case AddRequest(a, p, t, c) =>
        var r := AddPost(s, hash, a, p, t, c);
        if id == r.id {
          assert hash(p) == s1.live[id].password;
        } else {
          assert s1.live[id] == s.live[id];
        }
      case GetRequest(_) =>
      case UpdateRequest(k, p, a, t, c) =>
        assert id in s.live && s1.live[id].password == s.live[id].password;
      case DeleteRequest(k, p) =>
        assert id in s.live && s1.live[id] == s.live[id];
    }
  }

  /** No request ever stores a plaintext: every stored password stays a hash image. */
  lemma {:induction false} RunKeepsHashes(s: Store, hash: string -> string, verify: (string, string) -> bool,
                                          reqs: seq<Request>)
    requires Valid(s) && HashedOnly(s, hash)
    ensures HashedOnly(Run(s, hash, verify, reqs), hash)
    decreases |reqs|
  {
    if |reqs| > 0 {
      ApplyKeepsHashes(s, hash, verify, reqs[0]);
      RunKeepsHashes(Apply(s, hash, verify, reqs[0]), hash, verify, reqs[1..]);
    }
  }
}
