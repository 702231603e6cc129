/**
  The in-memory chat store: a table from client ids to display names and an
  append-only log of messages.
 */
module MessagesServiceModule {
  import opened Wrappers
  import opened ChatModel

  /** `Object.values(table)`: every value of the table, one per client, in some
      order the model does not fix. */
  method ValuesOf(table: map<string, string>) returns (names: seq<string>)
    ensures multiset(names) == ValueMultiset(table)
    ensures |names| == |table|
    ensures forall i :: 0 <= i < |names| ==> names[i] in table.Values
  {
    names := [];
    var rest := table;
    while rest != map[]
      invariant multiset(names) + ValueMultiset(rest) == ValueMultiset(table)
      decreases |rest|
    {
      var k :| k in rest;
      ValueMultisetRemove(rest, k);
      assert (rest - {k}).Keys < rest.Keys;
      names := names + [rest[k]];
      rest := rest - {k};
    }
    ValueMultisetSize(table);
    forall i | 0 <= i < |names| ensures names[i] in table.Values {
      assert names[i] in multiset(names);
      ValueMultisetHas(table, names[i]);
    }
  }

  class MessagesService {
    /** The message log, in insertion order. */
    var messages: seq<Message>
    /** Client id to display name. */
    var clientToUser: map<string, string>

    /** A fresh service: the log holds only the seed message and no client is
        identified. */
    constructor ()
      ensures messages == [SeedMessage()]
      ensures clientToUser == map[]
    {
      messages := [SeedMessage()];
      clientToUser := map[];
    }

    /** Binds `clientId` to `name`, overwriting any earlier name, and returns
        every name in the table. */
    method Identify(name: string, clientId: string) returns (names: seq<string>)
      modifies this`clientToUser
      ensures clientToUser == old(clientToUser)[clientId := name]
      ensures messages == old(messages)
      ensures Lookup(clientToUser, clientId) == Some(name)
      ensures forall c :: c != clientId ==> Lookup(clientToUser, c) == Lookup(old(clientToUser), c)
      ensures |clientToUser| == |old(clientToUser)| + (if clientId in old(clientToUser) then 0 else 1)
      ensures multiset(names) == ValueMultiset(clientToUser)
      ensures multiset(names) == ValueMultiset(old(clientToUser) - {clientId}) + multiset{name}
      ensures |names| == |clientToUser|
      ensures name in names
    {
      var before := clientToUser;
      ValueMultisetUpdate(before, clientId, name);
      clientToUser := before[clientId := name];
      names := ValuesOf(clientToUser);
      assert name in multiset(names);
    }

    /** The name `clientId` is bound to, or `None` if it never identified. */
    method GetClientName(clientId: string) returns (name: Option<string>)
      ensures name.Some? <==> clientId in clientToUser
      ensures name.Some? ==> name.value == clientToUser[clientId]
    {
      name := Lookup(clientToUser, clientId);
    }

    /** Builds a message from the sender's current name and the request's text,
        appends it to the log and returns it. */
    method Create(dto: CreateMessageDto, clientId: string) returns (message: Message)
      modifies this`messages
      ensures message.name == Lookup(clientToUser, clientId)
      ensures message.text == dto.text
      ensures messages == old(messages) + [message]
      ensures |messages| == |old(messages)| + 1 && messages[|messages| - 1] == message
      ensures forall i :: 0 <= i < |old(messages)| ==> messages[i] == old(messages)[i]
      ensures clientToUser == old(clientToUser)
    {
      message := NewMessage(clientToUser, dto, clientId);
      messages := messages + [message];
    }

    /** The whole log, oldest message first. */
    method FindAll() returns (log: seq<Message>)
      ensures log == messages
    {
      log := messages;
    }
  }

  /** A client of the service: two users, one of them never identified. */
  method Conversation()
  {
    var service := new MessagesService();
    var names := service.Identify("Sara", "c1");
    assert |names| == 1 && "Sara" in names;
    var m1 := service.Create(CreateMessageDto("hello"), "c1");
    var m2 := service.Create(CreateMessageDto("anyone?"), "c2");
    names := service.Identify("Omar", "c1");
    assert |names| == 1 && "Omar" in names;
    var log := service.FindAll();
    assert log == [SeedMessage(), Message(Some("Sara"), "hello"), Message(None, "anyone?")];
    var who := service.GetClientName("c2");
    assert who == None;
  }
}
