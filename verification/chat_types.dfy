/** The records the chat client reads from and writes to its realtime
    database, shared by every component. */
module ChatTypes {

  /** A nullable value: a database snapshot whose `val()` may be `null`,
      or the typing timeout handle that may be unset. */
  datatype Option<T> = None | Some(value: T)

  datatype Status = Online | Offline

  /** A presence record, stored under `users/<name>`. */
  datatype User = User(username: string, status: Status, lastSeen: int, isTyping: bool)

  /** A message as stored under `messages/<push id>`. */
  datatype StoredMessage = StoredMessage(username: string, text: string, timestamp: int)

  /** A message as the client holds it: the stored fields plus the database
      key as `id`. */
  datatype Message = Message(id: string, username: string, text: string, timestamp: int)

  /** A JavaScript object seen through `Object.entries`: its key/value pairs
      in enumeration order. */
  type Record<V> = seq<(string, V)>

  function Keys<V>(r: Record<V>): (ks: seq<string>)
    ensures |ks| == |r|
    ensures forall i :: 0 <= i < |r| ==> ks[i] == r[i].0
  {
    if r == [] then [] else [r[0].0] + Keys(r[1..])
  }

  /** Object keys are unique. */
  predicate DistinctKeys<V>(r: Record<V>) {
    forall i, j :: 0 <= i < j < |r| ==> r[i].0 != r[j].0
  }
}
