# Slacker CLI core, modelled in Dafny

Slacker is a console tool that stores message templates, users and sent
messages in three JSON files. It fills a template's `{placeholder}` words
with answers the user types, and posts the result to a Slack webhook.
This project models the part with real logic:

- **The three JSON-backed managers** (`TemplateManagerJsonImpl`,
  `MessageManagerJsonImpl`, `UserManagerJsonImpl`).
  - Each keeps a PHP associative array (key => record) in a field.
  - The array is rebuilt from the file at the start of every public call.
  - The whole file is rewritten from the array after every successful change.
  - Templates and messages use integer ids: id `0` means "assign the next
    id", which is one above the largest stored id (1 when nothing is stored).
  - Users are keyed by their caller-supplied `userId`.
  - A key that is already stored is refused before anything is written.
  - Templates can also be updated and deleted in place.
- **The placeholder fill loop** of `Slacker::sendMessage`:
  - split on single spaces;
  - replace each placeholder word by the next answer, keeping one trailing
    punctuation character;
  - join again with single spaces.
- **The service** `SlackerServiceJsonImpl`:
  - forwards every call to the matching manager;
  - `sendMessage` stamps the message, builds the webhook payload and then
    records the message.
- **`MessageDto`**, whose fresh id `0` is the assignment sentinel.

Files:

- `outcomes.dfy`: the error kinds, `Result` and `Outcome`.
- `php_array.dfy`: the PHP ordered array as a sequence of (key, value)
  entries in insertion order.
  - Assigning to a present key replaces the entry in place; an absent key
    appends.
  - `unset` closes the gap.
  - It also holds the load (`KeyBy`), the save (`Values`), the max-id scan
    and the lemmas about them.
- `dto.dfy`: the stored records as values, and the two objects the
  managers change in place (`TemplateDto`, `MessageDto`) as classes.
- `template_manager.dfy`, `message_manager.dfy`, `user_manager.dfy`: one
  class per manager.
  - `fileExists` and `file` stand for the JSON file.
  - The array field is what the source keeps in memory.
- `placeholder.dfy`: the fill loop as a method, proved against a
  word-by-word specification function, plus its lemmas.
- `slacker_service.dfy`: the service class.

How the outside world enters the model:

- The file system is two parameters per manager: whether the file is
  found, and the sequence of records it holds.
- The clock is a `Date` parameter.
- The prompts' answers are a sequence of strings, one per placeholder. A
  prompt left empty gives its default `--`, which is just another answer.
- The webhook request is reduced to the payload it would carry and to
  whether any exception came out of the send step (the `sendRaised`
  parameter).

Where the intended behaviour and the code differ, the model follows the
code:

- **Deleted ids can come back.** Ids are meant never to be reused after a
  delete. The code only looks at the current largest id, so deleting the
  top template frees its id for the next add (`PhpArray.TopKeyReused`).
- **Messages are recorded even when the request fails.** A failed dispatch
  is meant to record nothing. The code never inspects the exit status of
  the request, so it records the message whenever the send step returns,
  whatever the exit status. Any exception out of the send step ends the
  call before the message is recorded. That includes a warning the
  temporary error handler turns into an `ErrorException`, and a process
  time-out. The date set on the message object then stays set.
- **A placeholder needs no closing brace.** A word is a placeholder when it
  starts with `{` and ends in `}` or in one of the punctuation characters.
  So `{name,` qualifies.
- **A missing key is an error, not a precondition.** Reading an absent id
  or userId makes PHP return null from a method typed to return an object,
  which fails. The model returns `Err(UndefinedKey)`.

## Model

| member | source | states |
|---|---|---|
| PhpArray.Get | src/dao/TemplateManagerJsonImpl.php:23 | reading a present key yields a value stored under that key; with unique keys it is the value of every entry under that key |
| PhpArray.Put | src/dao/UserManagerJsonImpl.php:69 | assigning to an array key: an absent key appends one entry at the end; a present key has its value replaced at its position, everything else unchanged; the key set grows by exactly that key; keys stay unique |
| PhpArray.Remove | src/dao/TemplateManagerJsonImpl.php:96-97 | `unset` removes exactly the entry under the key and the others keep their order; afterwards the key is absent and keys stay unique |
| PhpArray.Values | src/dao/TemplateManagerJsonImpl.php:35 | `array_values` and the save loop yield the values positionally: same length, value i is entry i's value |
| PhpArray.KeyBy | src/dao/TemplateManagerJsonImpl.php:134-141 | the load loop's array has unique keys and every entry is stored under its own record's id |
| PhpArray.MaxKey | src/dao/TemplateManagerJsonImpl.php:50-55 | the `$maxId` scan result is at least 0 and at least every stored id; it is 0 or one of the ids; one above it is never a stored id |
| PhpArray.MaxId | src/dao/MessageManagerJsonImpl.php:47-52 | the max-id loop computes exactly `MaxKey` of the stored entries |
| PhpArray.KeyByHasKey | src/dao/UserManagerJsonImpl.php:104-111 | after a load a key is present if and only if some record of the file carries it |
| PhpArray.KeyByLastWins | src/dao/MessageManagerJsonImpl.php:111-117 | when the file holds several records with one id, the record that comes last is the one stored |
| PhpArray.KeyByDistinct | src/dao/UserManagerJsonImpl.php:104-111 | a file whose records have distinct keys loads into an array whose values are exactly the file's records, in file order |
| PhpArray.SaveThenLoad | src/dao/TemplateManagerJsonImpl.php:173-176 | saving the values in order and loading them again gives back the same array, entry for entry |
| PhpArray.PutKeyed | src/dao/MessageManagerJsonImpl.php:58 | storing a record under its own id keeps the array keyed by records with unique keys |
| PhpArray.RemoveKeyed | src/dao/TemplateManagerJsonImpl.php:97 | `unset` keeps the array keyed by records with unique keys |
| PhpArray.AddThenGet | src/dao/UserManagerJsonImpl.php:68-69 | a record added under a fresh key is found again, unchanged, under that key after save and reload |
| PhpArray.RemoveKeepsOthers | src/dao/TemplateManagerJsonImpl.php:96-97 | deleting one key leaves every other key present |
| PhpArray.RemoveTopLeavesSmaller | src/dao/TemplateManagerJsonImpl.php:92-102 | after deleting the largest id, every remaining id is below it |
| PhpArray.TopKeyReused | src/dao/TemplateManagerJsonImpl.php:50-57 | after deleting the largest id k, the next assigned id is at most k, and is exactly k when k is 1 or k-1 is stored: a deleted id is handed out again |
| Dto.TemplateDto.constructor | src/dao/TemplateManagerJsonImpl.php:137-139 | a template object holds the id and text it is built with |
| Dto.TemplateDto.SetId | src/dao/TemplateManagerJsonImpl.php:57 | writing the assigned id back into the caller's template changes the id and nothing else |
| Dto.MessageDto.constructor | src/dto/MessageDto.php:10-20 | a fresh message has id 0, the empty text and the current time as its date |
| Dto.MessageDto.SetId | src/dto/MessageDto.php:26-37 | after `setId`, `getId` returns the value set; text and date unchanged |
| Dto.MessageDto.SetMessage | src/dto/MessageDto.php:42-53 | after `setMessage`, `getMessage` returns the value set; id and date unchanged |
| Dto.MessageDto.SetDate | src/dto/MessageDto.php:58-69 | after `setDate`, `getDate` returns the value set; id and text unchanged |
| TemplateStore.TemplateManager.constructor | src/dao/TemplateManagerJsonImpl.php:15-18 | a new template manager holds an empty array |
| TemplateStore.TemplateManager.LoadTemplatesFromFile | src/dao/TemplateManagerJsonImpl.php:114-149 | a missing file fails with FileNotFound and changes nothing; otherwise the array is reset and rebuilt from the file, keyed by id, in file order |
| TemplateStore.TemplateManager.SaveTemplatesToFile | src/dao/TemplateManagerJsonImpl.php:156-188 | a missing file fails with FileNotFound; otherwise the file becomes the array's values in order |
| TemplateStore.TemplateManager.GetTemplate | src/dao/TemplateManagerJsonImpl.php:20-24 | reloads, then returns the template stored under the id (which carries that id), or UndefinedKey when absent |
| TemplateStore.TemplateManager.GetAllTemplates | src/dao/TemplateManagerJsonImpl.php:26-30 | reloads, then returns the whole freshly loaded array |
| TemplateStore.TemplateManager.GetAllTemplatesByIndex | src/dao/TemplateManagerJsonImpl.php:32-36 | reloads, then returns the same templates positionally, in insertion order |
| TemplateStore.TemplateManager.AddTemplate | src/dao/TemplateManagerJsonImpl.php:42-69 | id 0 becomes one above the largest stored id (1 when empty), written back into the caller's object; a stored id fails with DuplicateKey and the file is unchanged; otherwise the template is appended last, every other record keeps its position and the file is rewritten to match |
| TemplateStore.TemplateManager.UpdateTemplate | src/dao/TemplateManagerJsonImpl.php:75-86 | an absent id fails with NoSuchRecord and no save; a present id has just that record replaced at its position, and the file is rewritten to match |
| TemplateStore.TemplateManager.DeleteTemplate | src/dao/TemplateManagerJsonImpl.php:92-103 | an absent id fails with NoSuchRecord and no save; a present id has exactly that record removed, the others keep their order, and the file is rewritten to match |
| MessageStore.MessageManager.constructor | src/dao/MessageManagerJsonImpl.php:20-23 | a new message manager holds an empty array |
| MessageStore.MessageManager.LoadMessagesFromFile | src/dao/MessageManagerJsonImpl.php:79-125 | a missing file fails with FileNotFound; otherwise the array is reset and rebuilt keyed by id, in file order |
| MessageStore.MessageManager.SaveMessagesToFile | src/dao/MessageManagerJsonImpl.php:132-164 | a missing file fails with FileNotFound; otherwise the file becomes the array's values in order |
| MessageStore.MessageManager.GetMessage | src/dao/MessageManagerJsonImpl.php:25-29 | reloads, then returns the message stored under the id, or UndefinedKey when absent |
| MessageStore.MessageManager.GetAllMessages | src/dao/MessageManagerJsonImpl.php:31-35 | reloads, then returns the whole freshly loaded array |
| MessageStore.MessageManager.AddMessage | src/dao/MessageManagerJsonImpl.php:40-65 | id 0 becomes one above the largest stored id, set on the caller's object; a nonzero id is kept verbatim; a stored id fails with DuplicateKey and no save; otherwise the message is stored last under its id and the file is rewritten in insertion order |
| UserStore.UserManager.Unloaded | src/dao/UserManagerJsonImpl.php:18-21 | the object before its constructor loads holds an empty array |
| UserStore.UserManager.Open | src/dao/UserManagerJsonImpl.php:24-27 | construction loads at once: a missing file fails with FileNotFound, otherwise the array is the one loaded from the file |
| UserStore.UserManager.LoadUsersFromFile | src/dao/UserManagerJsonImpl.php:87-119 | a missing file fails with FileNotFound; otherwise the array is reset and rebuilt keyed by userId, so it depends only on the file |
| UserStore.UserManager.SaveUsersToFile | src/dao/UserManagerJsonImpl.php:126-157 | a missing file fails with FileNotFound; otherwise the file becomes the array's values in order |
| UserStore.UserManager.GetUser | src/dao/UserManagerJsonImpl.php:35-39 | reloads, then returns the user stored under the userId (which carries that userId), or UndefinedKey when absent |
| UserStore.UserManager.GetAllUsers | src/dao/UserManagerJsonImpl.php:45-49 | reloads, then returns the whole freshly loaded array |
| UserStore.UserManager.GetAllUsersByIndex | src/dao/UserManagerJsonImpl.php:55-59 | reloads, then returns the same users as the array, positionally and in insertion order |
| UserStore.UserManager.AddUser | src/dao/UserManagerJsonImpl.php:65-76 | the caller's userId is the key, verbatim; a stored userId fails with DuplicateKey and no save; otherwise the user is appended last and the file is rewritten to match |
| Placeholders.IsPlaceholder | src/Slacker.php:184 | a matching word starts with `{` and, with one final newline set aside, has at least 2 characters and ends in `}` or punctuation: PCRE's `$` also matches just before a final newline |
| Placeholders.PlaceholderReading | src/Slacker.php:184 | the whole PCRE reading of the pattern: a word matches exactly when, with one final newline set aside, it has no newline at all (`.` never matches one), starts with `{`, has at least 2 characters and ends in `}` or punctuation |
| Placeholders.EndsWithPunctuation | src/Slacker.php:191 | a word matches exactly when, with one final newline set aside, its last character is one of the ten punctuation characters |
| Placeholders.FillWord | src/Slacker.php:189-193 | a filled placeholder begins with the whole answer and adds at most one character; it adds one exactly when the word ends with punctuation, and that character is the word's last one; a word ending in `}` becomes the answer alone |
| Placeholders.Join | src/Slacker.php:199 | `implode(" ", …)`: a single word joins to itself, the result begins with the first word and is at least as long as its separators |
| Placeholders.CountBound | src/Slacker.php:182-188 | there is at most one prompt per word of the template |
| Placeholders.CountZero | src/Slacker.php:182-188 | no prompt is asked exactly when no word matches the placeholder pattern |
| Placeholders.Split | src/Slacker.php:178 | `explode(" ", …)` gives at least one piece, and no piece holds a space |
| Placeholders.FillWords | src/Slacker.php:182-196 | the filled word list has exactly as many words as the template |
| Placeholders.FillTemplate | src/Slacker.php:178-199 | the fill loop's output is the spaces-joined word-by-word fill of the template's words, consuming the answers in order |
| Placeholders.FillWordsAt | src/Slacker.php:182-196 | word k of the result is word k unchanged when it is not a placeholder, and otherwise the fill of word k with answer number n, where n is the number of placeholders before k: one answer per placeholder, left to right |
| Placeholders.FillWordsNoPlaceholder | src/Slacker.php:182-195 | without placeholders every word is copied unchanged |
| Placeholders.JoinSplit | src/Slacker.php:178-199 | joining the pieces of a split with single spaces gives the original string |
| Placeholders.SplitJoin | src/Slacker.php:178-199 | splitting a join of space-free words gives the words back |
| Placeholders.NoPlaceholderIdentity | src/Slacker.php:178-199 | a template without placeholder words comes back identical |
| Placeholders.WordCountPreserved | src/Slacker.php:178-199 | the result has as many words as the template, and when no answer holds a space it splits back into that many words |
| Placeholders.PlainPlaceholder | src/Slacker.php:184-193 | for a word without a newline: it is a placeholder if and only if it has at least 2 characters, starts with `{` and ends in `}` or punctuation; ending in `}` it becomes the answer alone; ending in punctuation it becomes the answer plus that one character |
| Placeholders.GreetingExample | src/Slacker.php:178-199 | "Hello {name}, welcome to {place}!" with answers "Ada" and "the team" has two placeholders and fills to "Hello Ada, welcome to the team!" |
| Placeholders.TrailingNewlineDropsPunctuation | src/Slacker.php:184-193 | a word `{name},` followed by a final newline still matches both patterns, and what is appended is the newline, not the comma |
| Service.PayloadDetermines | src/service/SlackerServiceJsonImpl.php:149-157 | the model's four-field payload keeps its inputs apart: equal payloads come only from equal channels, display names, texts and emoji names (the `#` prefix and the colons can be undone); the JSON text actually sent does not, see `Service.RenderedCollides` |
| Service.RenderedCollides | src/service/SlackerServiceJsonImpl.php:151-155 | the JSON body pastes the values in unquoted, so a display name holding `", "username": "` after some text makes two different channels with two different display names send the very same body |
| Service.DefaultPayload | src/service/SlackerServiceJsonImpl.php:136-155 | with the parameter defaults the channel is `#testing_slackbot` and the emoji is `::ghost::`; the bare name `ghost` the console passes gives `:ghost:` |
| Service.SlackerService.constructor | src/service/SlackerServiceJsonImpl.php:27-29 | the service holds the three managers it is given |
| Service.SlackerService.Open | src/service/SlackerServiceJsonImpl.php:31-36 | builds the message, template and user managers; only a missing users file makes construction fail, with FileNotFound |
| Service.SlackerService.GetAllUsers | src/service/SlackerServiceJsonImpl.php:39-42 | returns what the user manager returns |
| Service.SlackerService.GetAllUsersByIndex | src/service/SlackerServiceJsonImpl.php:44-47 | returns what the user manager returns |
| Service.SlackerService.GetUser | src/service/SlackerServiceJsonImpl.php:49-52 | returns what the user manager returns for the same userId |
| Service.SlackerService.AddUser | src/service/SlackerServiceJsonImpl.php:58-61 | forwards the user; DuplicateKey and FileNotFound come back unchanged |
| Service.SlackerService.GetTemplate | src/service/SlackerServiceJsonImpl.php:63-66 | returns what the template manager returns for the same id |
| Service.SlackerService.GetAllTemplates | src/service/SlackerServiceJsonImpl.php:68-71 | returns what the template manager returns |
| Service.SlackerService.GetAllTemplatesByIndex | src/service/SlackerServiceJsonImpl.php:73-76 | returns what the template manager returns |
| Service.SlackerService.AddTemplate | src/service/SlackerServiceJsonImpl.php:82-85 | forwards the template, with the manager's id assignment; DuplicateKey comes back unchanged |
| Service.SlackerService.UpdateTemplate | src/service/SlackerServiceJsonImpl.php:90-93 | forwards the template; on success the stored array has just that record replaced |
| Service.SlackerService.DeleteTemplate | src/service/SlackerServiceJsonImpl.php:98-101 | forwards the id; on success the stored array has exactly that record removed |
| Service.SlackerService.GetMessage | src/service/SlackerServiceJsonImpl.php:103-106 | returns what the message manager returns for the same id |
| Service.SlackerService.GetAllMessages | src/service/SlackerServiceJsonImpl.php:108-111 | returns what the message manager returns |
| Service.SlackerService.AddMessage | src/service/SlackerServiceJsonImpl.php:116-124 | leaves text and date alone and forwards to the message manager; DuplicateKey comes back unchanged |
| Service.SlackerService.SendMessage | src/service/SlackerServiceJsonImpl.php:136-163 | sets the message's date to the send time and builds the payload from the display name and the unchanged text; when the send step raises it fails with SendFailed and leaves the id and the message manager's file and array as they were; otherwise it records exactly that one message (text and send time) whatever the exit status of the request, and DuplicateKey comes back unchanged |

## Left out

- JSON encoding and decoding, Symfony `Finder` and the serializer: each
  file is an abstract sequence of records plus an exists flag. Malformed
  content, and a search that finds several files, are not modelled.
- Writing the file is a single assignment. A write that fails halfway is
  not modelled.
- Dates: `DateTime('now')` and RFC 2822 formatting are clock and library
  code, so a date is an opaque stamp passed in by the caller.
- The webhook request: the `curl` shell command, `getenv('WEBHOOK_BOT')`
  and the temporary error handler are network, shell and process side
  effects. The model keeps the payload and one flag saying whether any
  exception came out of the send step. Which exceptions occur, and when,
  is not modelled. Only the JSON body of the command is modelled
  (`Service.Rendered`); the `curl` prefix, the shell quoting around the body
  and the URL are not. The body quotes and escapes nothing, so two different
  sends can carry the same request (`Service.RenderedCollides`), and a value
  holding a `'` would break the shell command itself.
- The PHP error handler: when an exception leaves the send step,
  `restore_error_handler()` is skipped, so the temporary handler stays
  installed for later calls in the same process. The model has no error
  handler state, so this is not captured.
- The console: the menu loop, the selection prompts, the table output and
  `main.php`. The placeholder answers become an input sequence, and only
  the fill loop of `Slacker::sendMessage` is modelled.
- Service.SlackerService.AddMessage: the branch that sets a date when the
  message has none is not modelled. A message object always holds a date,
  because the field is typed and set in the constructor, so the branch
  never runs.
- The interfaces `TemplateManager`, `MessageManager`, `UserManager` and
  `SlackerService` carry no behaviour. Each implementation is a class with
  the same method names; there is no separate interface type.
- `UserDto` and `TemplateDto` sources are not part of this model. The user
  is a plain value with the four fields the code reads, and the template
  object keeps only the id and the text.
- PHP integers are 64-bit. Assigning an id past the largest integer is
  not modelled, because ids are unbounded here.
- Array keys: PHP turns a numeric-string userId such as `"5"` into the
  integer key 5. This is not modelled; userIds stay strings.
- TemplateStore.TemplateManager.AddTemplate: `array_merge` renumbers the
  integer keys of the in-memory array. It is modelled as appending under
  the record's id, because only the values are saved and every call
  reloads.
- The managers store the caller's objects themselves. A caller that later
  changes such an object would change the stored entry too. The model
  stores record values, so this aliasing is not captured.
