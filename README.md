# Hangman server and client, modelled in Dafny

This project models the core of a multi-client hangman game. One server
process holds a word list and a registry of per-client records. Client
processes take turns writing one request into a shared slot; the server
handles it, copies the client's record back into the slot, and answers.

The model has seven modules, one per file:

- `Hangman` (`hangman.dfy`): the per-client record (`struct hangmanData`),
  the buffer and alphabet constants, and the character classes.
- `ClientRegistry` (`registry.dfy`): the server's linked list of records.
  It is a class holding a sequence in list order; a pointer to a node is a
  position in that sequence. It has count, add (after the head), lookup
  (first match) and remove (first match).
- `WordList` (`wordlist.dfy`): the reader that turns the input text into
  the word list. `ReadFile` is a loop proved equal to a
  character-by-character fold, `ScanAll`; `AddWord` is a loop proved to
  append exactly the upper-cased line. The fold is proved equal to an
  independent description: cut at separators, keep the letters, truncate,
  upper-case, drop the last piece.
- `Game` (`game.dfy`): the per-request state machine over one record.
  `Step` is the specification and `Transition` the field-by-field
  implementation. `ClearWord` is the letter reveal. `Valid` is the record
  invariant: fewer than nine wrong guesses in a round, the progress is the
  mask of the guessed letters, the wrong-guess count is the number of
  guessed letters absent from the word, and every finished round is tallied
  exactly once.
- `HangmanServer` (`server.dfy`): one iteration of the server loop.
  `Handle` is the specification: find or register, step or disconnect,
  write back, remove on status -1. The `Slot` class is the shared record.
  The `Server` class's `Serve` method runs the iteration on the registry
  object and the slot.
- `HangmanClient` (`client.dfy`): how the client chooses its next request
  from the last status and the typed character. `Drive` is the
  specification of a whole session; `RunClient` is the loop.
- `Protocol` (`protocol.dfy`): properties that join the two sides. They
  cover the handshake, the client's keystroke folding against the server's
  rules, and the verdict against the tally.

Three behaviours of the code that are easy to misread:

- On shutdown the server writes -2 into the slot's `signal` field, not its
  `status` (hangman-server.c:461). No reply ever carries status -2
  (`Protocol.ReplyStatusRange`). So the client's exit with -2 happens only
  if the status it reads is -2; `Drive` and `RunClient` keep that path.
- Two separators in a row store an empty word. A round on an empty word is
  decided by the first new letter (`Game.EmptyWordWon`).
- The replay answer is folded only when it is at least 'y' as a signed
  char, or is 'n'. So 'z' through DEL are shifted as well, and other
  lower-case letters are not folded.

## Model

| member | source | states |
|---|---|---|
| ClientRegistry.NewEntry | hangman-server.c:56-65 | a new record has the id, status 0, index -1, no wrong guesses, no tallies, empty word and info, and 26 '_' slots |
| ClientRegistry.Find | hangman-server.c:78-90 | the result is the position of the first record with the id, with no earlier match, or None exactly when no record has the id |
| ClientRegistry.Inserted | hangman-server.c:43-71 | the list grows by one; the new record is the head of an empty list and second otherwise; removing it gives back the old list in order |
| ClientRegistry.Removed | hangman-server.c:96-119 | with no match the list is unchanged; otherwise exactly the first match is taken out and the rest keep their order |
| ClientRegistry.LookupAfterInsert | hangman-server.c:43-71 | after linking in a record for an absent id, that record is found for the id, and every other id finds what it found before |
| ClientRegistry.LookupAfterRemove | hangman-server.c:96-119 | unlinking the first record of an id leaves the lookup of every other id unchanged |
| ClientRegistry.RemovedDistinct | hangman-server.c:96-119 | with distinct ids, after removal no record has the id and the ids stay distinct |
| ClientRegistry.LookupOthersAfterPut | hangman-server.c:294-353 | writing a record through the position found for its id leaves every other id's lookup unchanged |
| ClientRegistry.FindAfterPut | hangman-server.c:294-353 | after the write the same position is still the one found for the id |
| ClientRegistry.Registry.constructor | hangman-server.c:19 | the registry starts empty |
| ClientRegistry.Registry.Count | hangman-server.c:25-37 | the walk over the list counts exactly its records |
| ClientRegistry.Registry.Get | hangman-server.c:78-90 | the walk returns the first matching position, or None when there is none |
| ClientRegistry.Registry.Add | hangman-server.c:43-71 | a record with status 0, no wrong guesses, index -1, empty word and info, no tallies and 26 '_' slots is linked in at the head or second place; the count grows by one |
| ClientRegistry.Registry.Put | hangman-server.c:294-353 | the record at the position is replaced; nothing else changes |
| ClientRegistry.Registry.Remove | hangman-server.c:96-119 | the list becomes the list without the first match |
| WordList.Feed | hangman-server.c:440-447 | one character stores one more word exactly when it is a space or newline |
| WordList.ScanAll | hangman-server.c:433-450 | the pending line holds letters only, at most 128 of them, and every stored word is upper-case letters within 128 |
| WordList.AddWord | hangman-server.c:131-150 | the list grows by exactly the upper-cased line |
| WordList.ReadFile | hangman-server.c:433-450 | the reading loop produces the tokenizer's word list |
| WordList.TokenizeCount | hangman-server.c:443-446 | each space or newline stores exactly one word |
| WordList.TrailingLineDropped | hangman-server.c:440-450 | text after the last separator adds no word |
| WordList.ScanAllMatchesSplit | hangman-server.c:433-450 | the reader's state is the cleaned pieces before the last separator, with the last piece's first 128 letters pending |
| WordList.TokenizeMatchesSplit | hangman-server.c:433-450 | the word list equals: cut at spaces and newlines, keep letters, truncate to 128, upper-case, drop the last piece |
| Game.GuessStep | hangman-server.c:292-323 | a guess keeps the id and the index, leaves status 0, 2 or 3, and adds at most one wrong guess; status 3 changes no slot, progress or count; otherwise the byte was upper-case and its slot, which did not hold it before, now holds it; no other slot changes |
| Game.MenuStep | hangman-server.c:324-348 | out of a round the tallies and id stay; the status becomes -1, 1 or 2, and 2 exactly when 'Y' was sent and a next word exists; a new round is on the next word, with progress of its length and no wrong guesses |
| Game.Step | hangman-server.c:289-349 | a request keeps the id and never lowers the tallies; in a round the status never becomes -1 or 1, and out of a round it never becomes 0 or 3 |
| Game.Disconnect | hangman-server.c:350-354 | a disconnect sets status -1 and the shutdown message and keeps the id, slots, progress, wrong guesses, index and tallies |
| Game.ClearWord | hangman-server.c:157-169 | every position whose secret letter is among the guessed slots takes that letter; all other positions are unchanged |
| Game.Transition | hangman-server.c:289-349 | the field-by-field update of the loop equals the step function `Step` |
| Game.MissesUpdate | hangman-server.c:297-305 | filling an empty slot adds one miss exactly when the letter is not in the word |
| Game.GuessedSlot | hangman-server.c:297-299 | an upper-case letter is among the well-formed slots exactly when its own slot holds it |
| Game.RevealMask | hangman-server.c:301-302 | revealing with more guessed letters turns the old mask into the new one |
| Game.MaskAfterMiss | hangman-server.c:303-305 | a letter absent from the word reveals nothing |
| Game.MaskComplete | hangman-server.c:315-318 | progress without '_' is the whole word |
| Game.NewLetter | hangman-server.c:297-319 | a new letter fills its slot; wrong guesses grow by one exactly when the word lacks it; the ninth miss sets status 0, counts a loss and shows the word; otherwise the progress is the mask of the guessed letters, and the round is won (status 0, one more win) exactly when no '_' is left, else status 2 |
| Game.RejectedGuess | hangman-server.c:294-296 | in a round, a byte outside 'A'..'Z' or a letter already guessed sets status 3 with "Invalid input." or "Already guessed." and changes nothing else |
| Game.StepKeepsValid | hangman-server.c:289-349 | every request keeps the record invariant, so wrong guesses never exceed 9 and the drawing index stays in 0..9 |
| Game.RoundEnd | hangman-server.c:310-319 | a request that ends a round counts exactly one result, a loss exactly at nine wrong guesses, and shows the whole word |
| Game.Replay | hangman-server.c:324-348 | out of a round, 'Y' moves to the next word with everything hidden, no wrong guesses and all slots '_', or gives -1 and "No more words" past the last word; 'N' gives -1 and "Quit game"; anything else gives 1 and "Invalid input"; a new round shows the empty gallows; the tallies are unchanged, and every answer other than 'Y' changes only status and message, while 'Y' past the last word changes only status, index and message |
| Game.EmptyWordWon | hangman-server.c:301-318 | in a fresh round on an empty word the first new letter wins |
| Game.Play | hangman-server.c:268-374 | any sequence of requests keeps the record invariant |
| Game.GuessingTheWordWins | hangman-server.c:297-319 | guessing the missing letters of the word, once each, wins with the last of them, with no wrong guess, and shows the word |
| Game.MissingNineTimesLoses | hangman-server.c:297-313 | enough distinct absent letters to reach nine wrong guesses lose the round with the last of them and show the word |
| HangmanServer.NewEntryValid | hangman-server.c:56-65 | a new record satisfies the invariant, with the replay question open |
| HangmanServer.Admit | hangman-server.c:281-285 | the list holds a record for the id at the returned position: the one found, or a new one linked in when none was |
| HangmanServer.AdmitKeepsValid | hangman-server.c:281-285 | registering a client keeps the ids distinct and every record valid |
| HangmanServer.Respond | hangman-server.c:280-354 | the record after the request keeps its id and the invariant, and a disconnect gives status -1 |
| HangmanServer.Commit | hangman-server.c:356-373 | a record with status other than -1 is written back at its position and the list keeps its length; at status -1 the list loses at most that record |
| HangmanServer.CommitKeepsValid | hangman-server.c:356-373 | writing the record back and removing it at status -1 keeps the registry invariant |
| HangmanServer.CommitLookup | hangman-server.c:371-373 | after the write-back the client's id finds the new record, or nothing at status -1; other ids are unaffected; the count drops by one exactly at status -1 |
| HangmanServer.Handle | hangman-server.c:278-373 | the reply carries the requesting id; a disconnect request gives status -1; the registry grows or shrinks by at most one record |
| HangmanServer.HandleKeepsValid | hangman-server.c:278-373 | an iteration of the loop keeps the registry invariant |
| HangmanServer.HandleReply | hangman-server.c:278-373 | the reply is a disconnect of the existing record, or the game step on the existing record or on a new one; afterwards the registry holds the reply for the client unless its status is -1, when it holds none |
| HangmanServer.HandleIsolation | hangman-server.c:278-373 | a request changes no other client's record |
| HangmanServer.HandleCount | hangman-server.c:281-373 | the client count grows by one for a first request and drops by one when the reply's status is -1 |
| HangmanServer.Slot.constructor | hangman.h:35-51 | the slot starts zeroed |
| HangmanServer.Slot.Publish | hangman-server.c:358-365 | status, wrong guesses, index, tallies, guessed slots, word and info become the record's; id, request and disconnect flag are untouched |
| HangmanServer.Server.constructor | hangman-server.c:193-208 | the word list is the tokenized input and no client is registered |
| HangmanServer.Server.Serve | hangman-server.c:278-373 | the registry and the slot's reply become what `Handle` prescribes, the request fields stay, and the registry invariant is kept |
| HangmanClient.FoldGuess | hangman-client.c:190-192 | a lower-case letter becomes the same letter in upper case (32 lower, same slot); every other byte is sent as typed; so the result is never lower-case and is upper-case exactly when a letter was typed |
| HangmanClient.FoldReplay | hangman-client.c:202-204 | the byte changes exactly when it is 'n' or between 'y' and 127, and then drops by 32; the result is 'Y' exactly for 'y' or 'Y', and 'N' exactly for 'n' or 'N' |
| HangmanClient.FailedReadRepeats | hangman-client.c:186-204 | when the read fails, the previous request is sent again unchanged as long as the status stays on the same side of 2 |
| HangmanClient.NextRequest | hangman-client.c:183-205 | the character used is the one typed, or the previous request when the read fails; in a round the request is never lower-case and is upper-case exactly when a letter was used; a lower-case letter is sent 32 lower and every other byte as used; out of a round the byte changes exactly when it is 'n' or between 'y' and 127, and then drops by 32, so it is 'Y' exactly for 'y' or 'Y' and 'N' exactly for 'n' or 'N' |
| HangmanClient.Drive | hangman-client.c:107-210 | a session ends only with exit code 0 or -2 |
| HangmanClient.DriveVerdicts | hangman-client.c:155-170 | the verdicts shown are, in order, one for each status-0 reply the client read and no others: LOSE exactly at nine wrong guesses, WIN otherwise |
| HangmanClient.DriveShape | hangman-client.c:109-210 | one request per reply; the first request is 'Y' and each later one is chosen from the previous reply and input; status -1 exits with 0; a status of -2 or below exits with -2; the loop goes on exactly past other statuses |
| HangmanClient.RunClient | hangman-client.c:107-210 | the client loop produces the session `Drive` describes, starting with 'Y' |
| Protocol.ReplyStatusRange | hangman-server.c:358 | every reply status is between -1 and 3 |
| Protocol.Handshake | hangman-client.c:84-107 | a new client's '\0' handshake registers it with status 1 and "Invalid input"; its first 'Y' starts a round on the first word, fully hidden, or ends with "No more words" and removal when the list is empty |
| Protocol.ReplayKeystroke | hangman-client.c:196-204 | a typed 'y' or 'Y' asks for the next word, 'n' or 'N' quits, anything else is rejected with status 1 |
| Protocol.GuessKeystroke | hangman-client.c:183-193 | a typed letter of either case ends up in its slot; any other byte is rejected with "Invalid input." and changes nothing else |
| Protocol.VerdictMatchesTally | hangman-client.c:155-170 | at the end of a round the client shows LOSE exactly when the server counted a loss, and WIN exactly when it counted a win |

## Left out

- Semaphores, the shared-memory mapping and the rendezvous between the processes: each loop iteration is one sequential step (`Serve`), and the client's replies are parameters (`Turn`).
- Signal handlers and shutdown: `kill`, interruption at any point, the server writing -2 into `signal`, and the client's disconnect path. The disconnect request itself is modelled (`Request.signal` not 0).
- File and terminal I/O: the input file is a character sequence; `fgets` becomes the first character of a line or None; printing is not modelled.
- `malloc`, `realloc` and `free` are treated as always succeeding; allocation failure is not modelled.
- The text of the ten gallows drawings is copied but is only ever used as the entry the wrong-guess count selects.
- HangmanServer.Handle: a disconnect from an id with no record is a NULL dereference in the source; the model requires such an id to be registered.
- WordList.ScanAll: a 128-letter line writes its terminator one past the line buffer, and a 128-letter word fills the record's progress buffer with no terminator; the model keeps words of up to 128 letters and reproduces neither overflow.
- Game.GuessStep: `guessed` has no terminator, so the source's search runs past the 26 slots; the model searches the 26 slots only. The same missing terminator makes the `strcpy` into the slot's `guessed` (hangman-server.c:363) read and write past the 26 slots into the fields that follow, `clientW` to `signal`; `HangmanServer.Slot.Publish` copies the 26 slots only, so its "request fields untouched" holds for the model, not necessarily for the source.
- HangmanClient.Drive: the loop test at hangman-client.c:109 reads `shared->status` after the turn was released at hangman-client.c:175, so in the source it may read another client's reply; `Drive` tests the client's own last reply. The two agree on when the loop ends only because no reply carries status -2 (`Protocol.ReplyStatusRange`).
- Game.Valid: the wrong-guess count and the tallies are `short` in the source; the model uses unbounded integers, so a tally overflow past 32767 is not modelled.
- `char c` compared with EOF in the reader is platform-dependent; the model reads exactly the characters of the text.
- Command-line handling (`getopt`, usage, choosing stdin or a file) is not modelled.
- The registry's linked list is a sequence: the model captures order and contents, not node addresses or sharing.
