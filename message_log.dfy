/**
 The value-level view of the chat server's message log: what a message is,
 what one `postMessage` does to the log, and what the log is after any
 sequence of posts. The in-place store in module `Server` is proved against
 these definitions.
 */
module MessageLog {

  /** One entry of the log: the `{id, user, content}` record the resolver pushes. */
  datatype Message = Message(id: nat, user: string, content: string)

  /** The arguments of one `postMessage` call. Both are non-null strings; nothing else is required of them. */
  datatype Post = Post(user: string, content: string)

  /** The log's invariant: the entry at position i carries id i. */
  predicate IdsArePositions(log: seq<Message>)
  {
    forall i :: 0 <= i < |log| ==> log[i].id == i
  }

  /** The set of ids the log holds. */
  function Ids(log: seq<Message>): set<nat>
  {
    set m | m in log :: m.id
  }

  /**
   The log after one `postMessage(user, content)`: the new entry takes the
   current length as its id and is pushed at the end.
   */
  function Append(log: seq<Message>, user: string, content: string): (r: seq<Message>)
    ensures |r| == |log| + 1
    ensures r[..|log|] == log
    ensures r[|log|].id == |log| && r[|log|].user == user && r[|log|].content == content
    ensures IdsArePositions(log) ==> IdsArePositions(r)
  {
    log + [Message(|log|, user, content)]
  }

  /**
   The log a freshly started server holds after accepting `posts`, in call
   order. Every entry is the post at the same position, tagged with that
   position as its id.
   */
  function Replay(posts: seq<Post>): (r: seq<Message>)
    ensures |r| == |posts|
    ensures IdsArePositions(r)
    ensures forall i :: 0 <= i < |r| ==> r[i].user == posts[i].user && r[i].content == posts[i].content
  {
    if posts == [] then []
    else
      var last := posts[|posts| - 1];
      Append(Replay(posts[..|posts| - 1]), last.user, last.content)
  }

  /** Replaying one more post is exactly one more `Append`. */
  lemma ReplaySnoc(posts: seq<Post>, p: Post)
    ensures Replay(posts + [p]) == Append(Replay(posts), p.user, p.content)
  {
  }

  /**
   Earlier entries never change: the log after the first k posts is the
   first k entries of the log after all of them.
   */
  lemma ReplayPrefix(posts: seq<Post>, k: nat)
    requires k <= |posts|
    ensures Replay(posts[..k]) == Replay(posts)[..k]
  {
  }

  /**
   The log determines the posts that built it: two post sequences give the
   same log exactly when they are equal, so no write is lost, merged or
   duplicated.
   */
  lemma ReplayInjective(posts: seq<Post>, others: seq<Post>)
    ensures Replay(posts) == Replay(others) <==> posts == others
  {
  }

  /**
   Ids are 0..n-1: under the invariant, the set of ids is exactly
   {0, ..., |log| - 1}, and ids are unique and strictly increasing in
   insertion order.
   */
  lemma {:induction false} IdsContiguous(log: seq<Message>)
    requires IdsArePositions(log)
    ensures forall k: nat :: k in Ids(log) <==> k < |log|
    ensures forall i, j :: 0 <= i < j < |log| ==> log[i].id < log[j].id
  {
    forall k: nat | k < |log| ensures k in Ids(log) {
      assert log[k] in log;
    }
    forall k | k in Ids(log) ensures k < |log| {
      var m :| m in log && m.id == k;
      var i :| 0 <= i < |log| && log[i] == m;
    }
  }

  /**
   Posting is not idempotent: the same arguments posted twice produce two
   entries, with ids n and n + 1, that hold the same user and content.
   */
  lemma PostTwiceGivesTwoEntries(posts: seq<Post>, p: Post)
    ensures var log := Replay(posts + [p, p]);
      |log| == |posts| + 2 &&
      log[|posts|] == Message(|posts|, p.user, p.content) &&
      log[|posts| + 1] == Message(|posts| + 1, p.user, p.content)
  {
  }
}
