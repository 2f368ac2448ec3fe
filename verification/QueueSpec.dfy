/** What the calls of a dispatch queue do to it, one at a time. */
module QueueSpec {
  import opened Options

  /** The entries, first one first, and the flag that unblock sets. */
  datatype Queued<E> = Queued(items: seq<E>, flag: bool)

  function Enqueued<E>(q: Queued<E>, x: E): Queued<E> {
    q.(items := q.items + [x])
  }

  /** A dispatch that has a token: it uses up the flag before it looks at the entries. */
  function Dispatched<E>(q: Queued<E>): (Queued<E>, Option<E>) {
    if q.flag then (q.(flag := false), None)
    else if q.items == [] then (q, None)
    else (q.(items := q.items[1..]), Some(q.items[0]))
  }

  /** A poll that has a token; in a queue without entries it is not defined. */
  function Polled<E>(q: Queued<E>): Option<(Queued<E>, E)> {
    if q.items == [] then None else Some((q.(items := q.items[1..]), q.items[0]))
  }

  function Unblocked<E>(q: Queued<E>): Queued<E> {
    q.(flag := true)
  }
}
