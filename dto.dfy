/** The records the three managers store, as values, and the two data
    transfer objects the managers update in place. */
module Dto {

  /** The instant a message was sent. Clock access and RFC 2822 formatting
      are outside the model, so a date is an opaque stamp. */
  datatype Date = Date(stamp: int)

  /** One entry of templates.json. */
  datatype Template = Template(id: int, message: string)

  /** One entry of messages.json. */
  datatype Message = Message(id: int, message: string, date: Date)

  /** One entry of users.json; `userId` is the caller-supplied key. */
  datatype User = User(userId: string, name: string, username: string, displayName: string)

  /** A template as the caller holds it: `addTemplate` writes the assigned
      id back into this object. */
  class TemplateDto {
    var id: int
    var message: string

    constructor (id: int, message: string)
      ensures this.id == id && this.message == message
    {
      this.id := id;
      this.message := message;
    }

    function GetId(): int
      reads this
    {
      id
    }

    method SetId(id: int)
      modifies this`id
      ensures GetId() == id
      ensures message == old(message)
    {
      this.id := id;
    }

    /** The record this object is saved as. */
    function Value(): Template
      reads this
    {
      Template(id, message)
    }
  }

  /** A sent message as the caller holds it. A fresh object has id 0, the
      value that asks the message manager to assign an id, and an empty text. */
  class MessageDto {
    var id: int
    var message: string
    var date: Date

    /** `now` is the instant the constructor reads from the clock. */
    constructor (now: Date)
      ensures id == 0 && message == "" && date == now
    {
      id := 0;
      message := "";
      date := now;
    }

    function GetId(): int
      reads this
    {
      id
    }

    method SetId(id: int)
      modifies this`id
      ensures GetId() == id
      ensures message == old(message) && date == old(date)
    {
      this.id := id;
    }

    function GetMessage(): string
      reads this
    {
      message
    }

    method SetMessage(message: string)
      modifies this`message
      ensures GetMessage() == message
      ensures id == old(id) && date == old(date)
    {
      this.message := message;
    }

    function GetDate(): Date
      reads this
    {
      date
    }

    method SetDate(date: Date)
      modifies this`date
      ensures GetDate() == date
      ensures id == old(id) && message == old(message)
    {
      this.date := date;
    }

    /** The record this object is saved as. */
    function Value(): Message
      reads this
    {
      Message(id, message, date)
    }
  }
}
