/** The service the console talks to: it owns one manager of each kind,
    forwards every user, template and message call to the matching manager
    unchanged, and adds the "send, then record" step. */
module Service {
  import opened Outcomes
  import opened PhpArray
  import opened Dto
  import opened TemplateStore
  import opened MessageStore
  import opened UserStore

  /** What the webhook request carries: the fields of the JSON body the
      shell command builds. `Rendered` gives the body's text. */
  datatype WebhookPayload = WebhookPayload(channel: string, username: string, text: string, iconEmoji: string)

  /** The payload `sendMessage` builds from its arguments: the channel gets
      a `#` in front and the emoji name is wrapped in colons. */
  function Payload(channel: string, user: User, text: string, iconEmojiName: string): WebhookPayload {
    WebhookPayload("#" + channel, user.displayName, text, ":" + iconEmojiName + ":")
  }

  /** The model's four-field payload keeps its inputs apart: two payloads
      are equal only when they were built from the same channel, display
      name, text and emoji name. The JSON text actually sent does not (see
      `RenderedCollides`). */
  lemma PayloadDetermines(channel: string, user: User, text: string, iconEmojiName: string,
                          channel': string, user': User, text': string, iconEmojiName': string)
    requires Payload(channel, user, text, iconEmojiName) == Payload(channel', user', text', iconEmojiName')
    ensures channel == channel' && user.displayName == user'.displayName
    ensures text == text' && iconEmojiName == iconEmojiName'
  {
    var p := Payload(channel, user, text, iconEmojiName);
    assert channel == p.channel[1..] == channel';
    var n := |p.iconEmoji| - 1;
    assert iconEmojiName == p.iconEmoji[1..n] == iconEmojiName';
  }

  /** The text between the channel and the display name in the JSON body. */
  const UsernameSeparator: string := "\", \"username\": \""

  /** The JSON body of the `curl` command: the payload's fields pasted
      between fixed pieces of text, with nothing quoted or escaped. */
  function Rendered(p: WebhookPayload): string {
    "{\"channel\": \"" + p.channel + UsernameSeparator + p.username
    + "\", \"text\": \"" + p.text + "\", \"icon_emoji\": \"" + p.iconEmoji + "\"}"
  }

  /** Because nothing is quoted, a display name that holds the separator
      after the channel makes two different channels, with two different
      display names, send the very same body. */
  lemma RenderedCollides(channel: string, middle: string, user: User, user': User,
                         text: string, iconEmojiName: string)
    requires user.displayName == middle + UsernameSeparator + user'.displayName
    ensures channel != channel + UsernameSeparator + middle
    ensures user.displayName != user'.displayName
    ensures Rendered(Payload(channel, user, text, iconEmojiName))
            == Rendered(Payload(channel + UsernameSeparator + middle, user', text, iconEmojiName))
  {
    assert |channel + UsernameSeparator + middle| > |channel|;
    assert ("#" + channel) + UsernameSeparator + user.displayName
           == ("#" + (channel + UsernameSeparator + middle)) + UsernameSeparator + user'.displayName;
  }

  /** The parameter defaults of `sendMessage`. */
  const DefaultChannel: string := "testing_slackbot"
  const DefaultIconEmojiName: string := ":ghost:"

  /** With the defaults the emoji name already carries its colons, so the
      payload doubles them; the console always passes a bare name. */
  lemma DefaultPayload(user: User, text: string)
    ensures Payload(DefaultChannel, user, text, DefaultIconEmojiName).channel == "#testing_slackbot"
    ensures Payload(DefaultChannel, user, text, DefaultIconEmojiName).iconEmoji == "::ghost::"
    ensures Payload(DefaultChannel, user, text, "ghost").iconEmoji == ":ghost:"
  {
  }

  class SlackerService {
    const messageManager: MessageManager
    const templateManager: TemplateManager
    const userManager: UserManager

    constructor (messageManager: MessageManager, templateManager: TemplateManager, userManager: UserManager)
      ensures this.messageManager == messageManager
      ensures this.templateManager == templateManager
      ensures this.userManager == userManager
    {
      this.messageManager := messageManager;
      this.templateManager := templateManager;
      this.userManager := userManager;
    }

    /** `new SlackerServiceJsonImpl()`: builds the message, template and user
        managers in that order; only the user manager loads at construction,
        so only a missing users.json makes it fail. */
    static method Open(messagesExist: bool, messageFile: seq<Message>,
                       templatesExist: bool, templateFile: seq<Template>,
                       usersExist: bool, userFile: seq<User>) returns (r: Result<SlackerService>)
      ensures !usersExist ==> r == Err(FileNotFound)
      ensures usersExist ==>
                && r.Ok? && fresh(r.value)
                && fresh(r.value.messageManager) && fresh(r.value.templateManager) && fresh(r.value.userManager)
                && r.value.messageManager.fileExists == messagesExist
                && r.value.messageManager.file == messageFile && r.value.messageManager.messages == []
                && r.value.templateManager.fileExists == templatesExist
                && r.value.templateManager.file == templateFile && r.value.templateManager.templates == []
                && r.value.userManager.fileExists
                && r.value.userManager.file == userFile
                && r.value.userManager.users == KeyBy(userFile, UserKey)
    {
      var messages := new MessageManager(messagesExist, messageFile);
      var templates := new TemplateManager(templatesExist, templateFile);
      var users := UserManager.Open(usersExist, userFile);
      if users.Err? {
        return Err(users.error);
      }
      var service := new SlackerService(messages, templates, users.value);
      return Ok(service);
    }

    method GetAllUsers() returns (r: Result<seq<(string, User)>>)
      modifies userManager`users
      ensures r == if userManager.fileExists then Ok(userManager.Stored()) else Err(FileNotFound)
    {
      r := userManager.GetAllUsers();
    }

    method GetAllUsersByIndex() returns (r: Result<seq<User>>)
      modifies userManager`users
      ensures !userManager.fileExists ==> r == Err(FileNotFound)
      ensures userManager.fileExists ==>
                && r.Ok? && r.value == Values(userManager.Stored())
    {
      r := userManager.GetAllUsersByIndex();
      assert userManager.fileExists ==> r.value == Values(userManager.Stored());
    }

    method GetUser(userId: string) returns (r: Result<User>)
      modifies userManager`users
      ensures !userManager.fileExists ==> r == Err(FileNotFound)
      ensures userManager.fileExists && HasKey(userManager.Stored(), userId) ==>
                r == Ok(Get(userManager.Stored(), userId))
      ensures userManager.fileExists && !HasKey(userManager.Stored(), userId) ==> r == Err(UndefinedKey)
    {
      r := userManager.GetUser(userId);
    }

    /** A userId already stored is refused and nothing is written. */
    method AddUser(user: User) returns (o: Outcome)
      modifies userManager`users, userManager`file
      ensures !userManager.fileExists ==> o == Fail(FileNotFound) && userManager.file == old(userManager.file)
      ensures userManager.fileExists ==>
                var loaded := KeyBy(old(userManager.file), UserKey);
                && (HasKey(loaded, user.userId) ==>
                      o == Fail(DuplicateKey) && userManager.file == old(userManager.file))
                && (!HasKey(loaded, user.userId) ==>
                      o == Pass && userManager.Stored() == loaded + [(user.userId, user)])
    {
      o := userManager.AddUser(user);
    }

    method GetTemplate(templateId: int) returns (r: Result<Template>)
      modifies templateManager`templates
      ensures !templateManager.fileExists ==> r == Err(FileNotFound)
      ensures templateManager.fileExists && HasKey(templateManager.Stored(), templateId) ==>
                r == Ok(Get(templateManager.Stored(), templateId))
      ensures templateManager.fileExists && !HasKey(templateManager.Stored(), templateId) ==>
                r == Err(UndefinedKey)
    {
      r := templateManager.GetTemplate(templateId);
    }

    method GetAllTemplates() returns (r: Result<seq<(int, Template)>>)
      modifies templateManager`templates
      ensures r == if templateManager.fileExists then Ok(templateManager.Stored()) else Err(FileNotFound)
    {
      r := templateManager.GetAllTemplates();
    }

    method GetAllTemplatesByIndex() returns (r: Result<seq<Template>>)
      modifies templateManager`templates
      ensures !templateManager.fileExists ==> r == Err(FileNotFound)
      ensures templateManager.fileExists ==>
                && r.Ok? && r.value == Values(templateManager.Stored())
    {
      r := templateManager.GetAllTemplatesByIndex();
      assert templateManager.fileExists ==> r.value == Values(templateManager.Stored());
    }

    /** Id 0 asks for the next id; a stored id is refused and nothing is written. */
    method AddTemplate(template: TemplateDto) returns (o: Outcome)
      modifies templateManager`templates, templateManager`file, template`id
      ensures !templateManager.fileExists ==>
                o == Fail(FileNotFound) && templateManager.file == old(templateManager.file)
                && template.id == old(template.id)
      ensures templateManager.fileExists ==>
                var loaded := KeyBy(old(templateManager.file), TemplateKey);
                var id := if old(template.id) == 0 then MaxKey(loaded) + 1 else old(template.id);
                && template.id == id
                && (HasKey(loaded, id) ==>
                      o == Fail(DuplicateKey) && templateManager.file == old(templateManager.file))
                && (!HasKey(loaded, id) ==>
                      o == Pass && templateManager.Stored() == loaded + [(id, Template(id, template.message))])
    {
      o := templateManager.AddTemplate(template);
    }

    method UpdateTemplate(updatedTemplate: TemplateDto) returns (o: Outcome)
      modifies templateManager`templates, templateManager`file
      ensures !templateManager.fileExists ==>
                o == Fail(FileNotFound) && templateManager.file == old(templateManager.file)
      ensures templateManager.fileExists ==>
                var loaded := KeyBy(old(templateManager.file), TemplateKey);
                var id := updatedTemplate.id;
                && (!HasKey(loaded, id) ==>
                      o == Fail(NoSuchRecord) && templateManager.file == old(templateManager.file))
                && (HasKey(loaded, id) ==>
                      o == Pass && templateManager.Stored() == loaded[IndexOf(loaded, id) := (id, updatedTemplate.Value())])
    {
      o := templateManager.UpdateTemplate(updatedTemplate);
      ghost var loaded := KeyBy(old(templateManager.file), TemplateKey);
      if o.Pass? {
        assert templateManager.Stored() == loaded[IndexOf(loaded, updatedTemplate.id) := (updatedTemplate.id, updatedTemplate.Value())];
      }
    }

    method DeleteTemplate(templateId: int) returns (o: Outcome)
      modifies templateManager`templates, templateManager`file
      ensures !templateManager.fileExists ==>
                o == Fail(FileNotFound) && templateManager.file == old(templateManager.file)
      ensures templateManager.fileExists ==>
                var loaded := KeyBy(old(templateManager.file), TemplateKey);
                && (!HasKey(loaded, templateId) ==>
                      o == Fail(NoSuchRecord) && templateManager.file == old(templateManager.file))
                && (HasKey(loaded, templateId) ==>
                      o == Pass && templateManager.Stored() == Remove(loaded, templateId))
    {
      o := templateManager.DeleteTemplate(templateId);
    }

    method GetMessage(messageId: int) returns (r: Result<Message>)
      modifies messageManager`messages
      ensures !messageManager.fileExists ==> r == Err(FileNotFound)
      ensures messageManager.fileExists && HasKey(messageManager.Stored(), messageId) ==>
                r == Ok(Get(messageManager.Stored(), messageId))
      ensures messageManager.fileExists && !HasKey(messageManager.Stored(), messageId) ==>
                r == Err(UndefinedKey)
    {
      r := messageManager.GetMessage(messageId);
    }

    method GetAllMessages() returns (r: Result<seq<(int, Message)>>)
      modifies messageManager`messages
      ensures r == if messageManager.fileExists then Ok(messageManager.Stored()) else Err(FileNotFound)
    {
      r := messageManager.GetAllMessages();
    }

    /** Records the message as it is. The date default of the source never
        applies: a message object always holds a date. */
    method AddMessage(message: MessageDto) returns (o: Outcome)
      modifies messageManager`messages, messageManager`file, message`id
      ensures message.message == old(message.message) && message.date == old(message.date)
      ensures !messageManager.fileExists ==>
                o == Fail(FileNotFound) && messageManager.file == old(messageManager.file)
                && message.id == old(message.id)
      ensures messageManager.fileExists ==>
                var loaded := KeyBy(old(messageManager.file), MessageKey);
                var id := if old(message.id) == 0 then MaxKey(loaded) + 1 else old(message.id);
                && message.id == id
                && (HasKey(loaded, id) ==>
                      o == Fail(DuplicateKey) && messageManager.file == old(messageManager.file))
                && (!HasKey(loaded, id) ==>
                      && o == Pass
                      && messageManager.Stored() == loaded + [(id, Message(id, message.message, message.date))])
    {
      o := messageManager.AddMessage(message);
    }

    /** Stamps the message with the send time and builds the webhook payload
        from the user's display name and the message text. When an exception
        comes out of the send step (`sendRaised`: a warning the temporary
        error handler turns into an ErrorException, a process time-out), the
        call ends there with the date set and nothing recorded; otherwise the
        message is recorded whatever the exit status of the request. The
        template argument is not used. */
    method SendMessage(template: TemplateDto, user: User, message: MessageDto,
                       channel: string, iconEmojiName: string, now: Date, sendRaised: bool)
      returns (payload: WebhookPayload, o: Outcome)
      modifies message`date, message`id, messageManager`messages, messageManager`file
      ensures payload == Payload(channel, user, old(message.message), iconEmojiName)
      ensures message.date == now && message.message == old(message.message)
      ensures sendRaised ==>
                && o == Fail(SendFailed) && message.id == old(message.id)
                && messageManager.file == old(messageManager.file)
                && messageManager.messages == old(messageManager.messages)
      ensures !sendRaised && !messageManager.fileExists ==>
                o == Fail(FileNotFound) && messageManager.file == old(messageManager.file)
                && message.id == old(message.id)
      ensures !sendRaised && messageManager.fileExists ==>
                var loaded := KeyBy(old(messageManager.file), MessageKey);
                var id := if old(message.id) == 0 then MaxKey(loaded) + 1 else old(message.id);
                && message.id == id
                && (HasKey(loaded, id) ==>
                      o == Fail(DuplicateKey) && messageManager.file == old(messageManager.file))
                && (!HasKey(loaded, id) ==>
                      && o == Pass
                      && messageManager.Stored() == loaded + [(id, Message(id, old(message.message), now))])
    {
      message.SetDate(now);
      payload := Payload(channel, user, message.GetMessage(), iconEmojiName);
      if sendRaised {
        o := Fail(SendFailed);
        return;
      }
      o := messageManager.AddMessage(message);
    }
  }
}
