# Live-chat message store, modelled in Dafny

The chat backend keeps all of its state in one in-memory service,
`MessagesService`. It holds two things:

- a log of chat messages, which starts with one seed message from "Ahmed";
- a table that maps each connected client's id to the display name the client
  gave when it identified itself.

The service has four operations:

- `identify` binds a client to a name and returns every name in the table;
- `getClientName` reads a client's name;
- `create` builds a message from the sender's current name and the request's
  text, then appends it to the log;
- `findAll` returns the log.

In the model, the service is the class `MessagesService` in
`messages_service.dfy`. The table is a field of type `map<string, string>` and
the log is a field of type `seq<Message>`. `Message` is a record holding an
`Option<string>` name and a text; the name is `None` when the sender never
identified (`undefined` in the source). A create request (DTO, data transfer
object) is modelled as its text alone.

`chat_model.dfy` holds the values and the specification functions:

- `Lookup` reads the table.
- `ValueMultiset` gives a map's values with their multiplicity, one per key.
  It is what `Object.values` returns, ignoring order.
- The lemmas about `ValueMultiset` relate it to removing keys, to binding a
  key, to the map's size and to `Values`.

`ValuesOf` models `Object.values` itself. It is a loop that takes one key at a
time and is proved to return exactly the table's value multiset. The method
`Conversation` is a short client that uses only the contracts: it identifies
one user, posts as that user and as an unidentified user, renames the first
user, and checks the resulting log.

## Model

| member | source | states |
|---|---|---|
| `MessagesServiceModule.MessagesService.constructor` | backend_chatapp/src/messages/messages.service.ts:8-9 | a new service's log is exactly the seed message `{name: 'Ahmed', text: 'hey there!'}`, and its client table is empty |
| `MessagesServiceModule.MessagesService.Identify` | backend_chatapp/src/messages/messages.service.ts:11-15 | afterwards the client maps to the given name and every other client maps to what it did before; the log is untouched; the table gains an entry only for a new client; the returned names are exactly the table's values, one per client (duplicates kept), and include the new name |
| `MessagesServiceModule.MessagesService.GetClientName` | backend_chatapp/src/messages/messages.service.ts:17-19 | yields a name exactly when the client is in the table, and then it is the bound name; absent for a client never identified; changes nothing |
| `MessagesServiceModule.MessagesService.Create` | backend_chatapp/src/messages/messages.service.ts:21-29 | the returned message has the sender's current name (possibly absent) and the request's text; the log becomes the old log plus that message, so it grows by one and earlier messages keep their order; the client table is unchanged |
| `MessagesServiceModule.MessagesService.FindAll` | backend_chatapp/src/messages/messages.service.ts:31-33 | returns the current log in insertion order and changes nothing |
| `MessagesServiceModule.ValuesOf` | backend_chatapp/src/messages/messages.service.ts:14 | `Object.values` of the table: a sequence whose multiset is the map's value multiset, with one element per client, each of them a value of the table |
| `ChatModel.ValueMultisetRemove` | backend_chatapp/src/messages/messages.service.ts:14 | removing any key from the table removes exactly that key's value from the value multiset |
| `ChatModel.ValueMultisetSize` | backend_chatapp/src/messages/messages.service.ts:14 | the value multiset has exactly one element per key of the table |
| `ChatModel.ValueMultisetCount` | backend_chatapp/src/messages/messages.service.ts:14 | each name occurs in the value multiset exactly as many times as there are clients bound to it, so duplicates are kept |
| `ChatModel.ValueMultisetHas` | backend_chatapp/src/messages/messages.service.ts:14 | a name occurs in the value multiset exactly when some client is bound to it |
| `ChatModel.ValueMultisetUpdate` | backend_chatapp/src/messages/messages.service.ts:12-14 | binding a client to a name replaces that client's old name, if it had one, by one occurrence of the new name and keeps every other client's name |
| `ChatModel.BindSize` | backend_chatapp/src/messages/messages.service.ts:12 | assigning into the table overwrites a known client's entry, so the table grows by one for a new client and by nothing otherwise |
| `ChatModel.LookupAfterBind` | backend_chatapp/src/messages/messages.service.ts:11-19 | after a client is bound, looking it up gives the new name, and looking up any other client gives what it gave before |

## Left out

- NestJS framework plumbing: the `@Injectable()` decorator and dependency injection have no behaviour of their own.
- The realtime gateway that calls the service: it is websocket I/O and concurrency, and it is not part of this model.
- The DTO and entity classes (`create-message.dto`, `message.entity`) are not part of this model. The request is modelled as its `text`, and a message as an optional name plus a text. `UpdateMessageDto` is imported but never used.
- The generated declaration file `dist/messages/messages.service.d.ts` has type signatures only; it agrees with the method shapes used here.
- `MessagesServiceModule.MessagesService.Identify`: the order of the returned names is not fixed. JavaScript lists integer-like keys first in ascending order and then the other keys in insertion order. The model states only the multiset of the names.
- `MessagesServiceModule.MessagesService.FindAll`: it returns the log as a value. The source returns the live array, so later pushes would show through a reference the caller keeps. The model does not capture that aliasing.
- `MessagesServiceModule.MessagesService.Create`: it returns the message as a value. The source pushes and returns the same object, so a caller that mutates the returned message also changes the log. The model does not capture that aliasing.
- `MessagesServiceModule.MessagesService.GetClientName`: property names inherited from JavaScript's `Object.prototype` are not modelled. Reading a key such as `toString` or `constructor` from the plain-object table yields a function instead of `undefined`. The model assumes client ids are never names inherited from `Object.prototype`, and treats every client id as an ordinary key.
- `MessagesServiceModule.MessagesService.Identify`: assumes client ids are never names inherited from `Object.prototype`. In the source, assigning to the key `__proto__` creates no entry, so for that client id the returned names leave out the new name and the table does not grow. The model's `name in names` and its table update do not hold for that input.
- `MessagesServiceModule.MessagesService.Create`: assumes client ids are never names inherited from `Object.prototype`. In the source, a client id such as `toString` makes the stored message's name a function. The model's message name is always a name from the table or absent.
