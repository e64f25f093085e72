/** The JSON-backed manager of sent messages: the same load, assign-id and
    save shape as the template manager, without update or delete. */
module MessageStore {
  import opened Outcomes
  import opened PhpArray
  import opened Dto

  /** Messages are keyed by their integer id. */
  function MessageKey(m: Message): int {
    m.id
  }

  class MessageManager {
    /** Whether messages.json is found. */
    var fileExists: bool
    /** The records messages.json holds, in array order. */
    var file: seq<Message>
    /** The `$messages` field: id => message, in insertion order. */
    var messages: seq<(int, Message)>

    constructor (fileExists: bool, file: seq<Message>)
      ensures this.fileExists == fileExists && this.file == file && messages == []
    {
      this.fileExists := fileExists;
      this.file := file;
      messages := [];
    }

    /** The array a load builds from the current file. */
    ghost function Stored(): seq<(int, Message)>
      reads this
    {
      KeyBy(file, MessageKey)
    }

    /** Resets the array and keys every record of the file by its id. */
    method LoadMessagesFromFile() returns (o: Outcome)
      modifies this`messages
      ensures o == if fileExists then Pass else Fail(FileNotFound)
      ensures messages == if fileExists then Stored() else old(messages)
    {
      if !fileExists {
        return Fail(FileNotFound);
      }
      messages := [];
      for i := 0 to |file|
        invariant messages == KeyBy(file[..i], MessageKey)
      {
        assert file[..i + 1][..i] == file[..i];
        messages := Put(messages, file[i].id, file[i]);
      }
      assert file[..|file|] == file;
      return Pass;
    }

    /** Rewrites the file with the array's values, in order. */
    method SaveMessagesToFile() returns (o: Outcome)
      modifies this`file
      ensures o == if fileExists then Pass else Fail(FileNotFound)
      ensures file == if fileExists then Values(messages) else old(file)
    {
      if !fileExists {
        return Fail(FileNotFound);
      }
      var normalized: seq<Message> := [];
      for i := 0 to |messages|
        invariant normalized == Values(messages[..i])
      {
        assert messages[..i + 1][..i] == messages[..i];
        normalized := normalized + [messages[i].1];
      }
      assert messages[..|messages|] == messages;
      file := normalized;
      return Pass;
    }

    method GetMessage(messageId: int) returns (r: Result<Message>)
      modifies this`messages
      ensures messages == if fileExists then Stored() else old(messages)
      ensures !fileExists ==> r == Err(FileNotFound)
      ensures fileExists && HasKey(Stored(), messageId) ==>
                r == Ok(Get(Stored(), messageId)) && r.value.id == messageId
      ensures fileExists && !HasKey(Stored(), messageId) ==> r == Err(UndefinedKey)
    {
      var o := LoadMessagesFromFile();
      if o.Fail? {
        return Err(o.error);
      }
      if HasKey(messages, messageId) {
        r := Ok(Get(messages, messageId));
      } else {
        r := Err(UndefinedKey);
      }
    }

    method GetAllMessages() returns (r: Result<seq<(int, Message)>>)
      modifies this`messages
      ensures messages == if fileExists then Stored() else old(messages)
      ensures r == if fileExists then Ok(Stored()) else Err(FileNotFound)
    {
      var o := LoadMessagesFromFile();
      if o.Fail? {
        return Err(o.error);
      }
      r := Ok(messages);
    }

    /** Id 0 asks for the next id, one above the largest stored id (or 1);
        any other id is kept as given. An id already stored is refused
        before anything is written. */
    method AddMessage(message: MessageDto) returns (o: Outcome)
      modifies this`messages, this`file, message`id
      ensures !fileExists ==>
                && o == Fail(FileNotFound)
                && messages == old(messages) && file == old(file) && message.id == old(message.id)
      ensures fileExists ==>
                var loaded := KeyBy(old(file), MessageKey);
                var id := if old(message.id) == 0 then MaxKey(loaded) + 1 else old(message.id);
                && message.id == id
                && (HasKey(loaded, id) ==>
                      o == Fail(DuplicateKey) && messages == loaded && file == old(file))
                && (!HasKey(loaded, id) ==>
                      && o == Pass
                      && messages == loaded + [(id, Message(id, message.message, message.date))]
                      && file == Values(messages)
                      && Stored() == messages)
    {
      o := LoadMessagesFromFile();
      if o.Fail? {
        return;
      }
      if message.GetId() == 0 {
        var maxId := MaxId(messages);
        message.SetId(maxId + 1);
      }
      if !HasKey(messages, message.GetId()) {
        PutKeyed(messages, MessageKey, message.Value());
        messages := Put(messages, message.GetId(), message.Value());
      } else {
        return Fail(DuplicateKey);
      }
      o := SaveMessagesToFile();
      assert o.Pass? ==> Stored() == messages by {
        SaveThenLoad(messages, MessageKey);
      }
    }
  }
}
