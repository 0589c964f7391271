/**
 * NotificationHub: broadcasts a message to every connected client. The
 * SignalR transport is not modelled; the hub keeps the log of what it sent.
 */
module Hubs {
  /** The client method every broadcast invokes. */
  const UpdateTopic: string := "TodoItemUpdated"

  class NotificationHub {
    /** Every broadcast, as (client method, message), in the order sent. */
    ghost var broadcasts: seq<(string, string)>

    constructor()
      ensures broadcasts == []
    {
      broadcasts := [];
    }

    /** `SendTodoUpdate`: one broadcast of `message` under the update topic. */
    method SendTodoUpdate(message: string)
      modifies this
      ensures broadcasts == old(broadcasts) + [(UpdateTopic, message)]
    {
      broadcasts := broadcasts + [(UpdateTopic, message)];
    }
  }
}
