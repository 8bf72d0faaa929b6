/**
 * The records `NovaGraph` keeps in its maps, restricted to the fields that
 * backend/src/Graph.cpp reads or writes.
 */
module Records {

  /** A user: id, display name and karma (starts at 0). */
  datatype User = User(id: int, name: string, karma: int)

  /** One chat message of a community. */
  datatype Message = Message(
    senderId: int,
    senderName: string,
    content: string,
    timestamp: string,
    upvotes: int)

  /** A community: its tags in order, its member set and its chat history. */
  datatype Community = Community(
    id: int,
    name: string,
    description: string,
    tags: seq<string>,
    members: set<int>,
    chatHistory: seq<Message>)

  /** What `operator[]` on `userDB` inserts for an unknown id: a value-initialised User. */
  const DefaultUser: User := User(0, "", 0)
}
