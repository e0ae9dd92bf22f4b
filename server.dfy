/**
 The GraphQL server's state and resolvers: the module-level `messages`
 array, the `messages` query and the `postMessage` mutation.
 */
module Server {
  import opened MessageLog

  /**
   The process-wide message store. `messages` is the array the resolvers
   share; the ghost field `Posts` records the arguments of every accepted
   `postMessage` call, in call order.
   */
  class MessageStore {
    var messages: seq<Message>
    ghost var Posts: seq<Post>

    /** The log is exactly the replay of the accepted posts. */
    ghost predicate Valid()
      reads this
    {
      messages == Replay(Posts)
    }

    /** Server start: the log is empty. */
    constructor ()
      ensures Valid() && messages == [] && Posts == []
    {
      messages := [];
      Posts := [];
    }

    /** `Query.messages`: the whole log, in insertion order, with ids equal to positions. */
    function Messages(): (log: seq<Message>)
      reads this
      requires Valid()
      ensures log == Replay(Posts)
      ensures IdsArePositions(log)
    {
      messages
    }

    /**
     `Mutation.postMessage`: the new id is the current length, the record is
     pushed at the end and the id returned. No argument is rejected: empty
     strings are stored as given.
     */
    method PostMessage(user: string, content: string) returns (id: nat)
      requires Valid()
      modifies this
      ensures Valid()
      ensures Posts == old(Posts) + [Post(user, content)]
      ensures id == |old(messages)|
      ensures |messages| == |old(messages)| + 1
      ensures messages[..id] == old(messages)
      ensures messages[id] == Message(id, user, content)
    {
      id := |messages|;
      ReplaySnoc(Posts, Post(user, content));
      messages := Append(messages, user, content);
      Posts := Posts + [Post(user, content)];
    }
  }

  /**
   A client of the store's contracts: posts that include empty strings are
   all accepted, the ids come back as 0, 1, 2, and the query then returns
   the three entries in order.
   */
  method PostThreeMessages() returns (ids: seq<nat>, log: seq<Message>)
    ensures ids == [0, 1, 2]
    ensures log == [Message(0, "r", "a"), Message(1, "", "b"), Message(2, "r", "")]
  {
    var store := new MessageStore();
    var a := store.PostMessage("r", "a");
    var b := store.PostMessage("", "b");
    var c := store.PostMessage("r", "");
    ids := [a, b, c];
    log := store.Messages();
  }
}
