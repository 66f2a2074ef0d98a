/**
 * Properties of the exchange between a client and the server: what the
 * handshake and the first request do, how the client's folding of typed
 * characters meets the server's rules, and that the verdict the client
 * shows agrees with the tally the server keeps.
 */
module Protocol {
  import opened Hangman
  import opened ClientRegistry
  import opened Game
  import opened HangmanServer
  import opened HangmanClient

  /** A record found in a valid registry is valid and live. */
  lemma LookupValid(entries: seq<Entry>, id: int, words: seq<string>)
    requires RegistryValid(entries, words) && Lookup(entries, id).Some?
    ensures Valid(Lookup(entries, id).value, words) && Lookup(entries, id).value.status != -1
  {
    var k := Find(entries, id).value;
    assert Lookup(entries, id).value == entries[k];
  }

  /** Every reply has a status between -1 and 3: the server never replies
      with -2, so the client's loop ends only through status -1. */
  lemma ReplyStatusRange(entries: seq<Entry>, req: Request, words: seq<string>)
    requires RegistryValid(entries, words)
    requires req.signal != 0 ==> Find(entries, req.id).Some?
    ensures -1 <= Handle(entries, req, words).reply.status <= 3
  {
    var admitted := Admit(entries, req.id);
    AdmitKeepsValid(entries, req.id, words);
    assert Valid(Respond(admitted.0[admitted.1], req, words), words);
  }

  /** A new client's handshake ('\0') registers it with status 1 ("Invalid
      input"), as the replay question rejects '\0'; its first request 'Y'
      then starts a round on the first word with everything hidden, or ends
      the session with "No more words" when the list is empty. */
  lemma Handshake(entries: seq<Entry>, id: int, words: seq<string>)
    requires RegistryValid(entries, words) && Find(entries, id).None?
    ensures
      var first := Handle(entries, Request(id, HandshakeRequest, 0), words);
      && first.reply.status == 1 && first.reply.info == InvalidReplyInfo
      && first.reply.wins == 0 && first.reply.losses == 0
      && Lookup(first.entries, id) == Some(first.reply)
      && |first.entries| == |entries| + 1
      && RegistryValid(first.entries, words)
      && var second := Handle(first.entries, Request(id, FirstRequest, 0), words);
         && second.reply.status == (if |words| > 0 then 2 else -1)
         && (|words| > 0 ==>
               second.reply.index == 0 && second.reply.word == Blank(|words[0]|) &&
               second.reply.wrongGuesses == 0 && second.reply.guessed == Unguessed())
         && (|words| == 0 ==>
               second.reply.info == NoMoreWordsInfo && Lookup(second.entries, id).None?)
  {
    var req1 := Request(id, HandshakeRequest, 0);
    HandleReply(entries, req1, words);
    HandleCount(entries, req1, words);
    HandleKeepsValid(entries, req1, words);
    NewEntryValid(id, words);
    var first := Handle(entries, req1, words);
    assert first.reply == Step(NewEntry(id), HandshakeRequest, words);
    var req2 := Request(id, FirstRequest, 0);
    HandleReply(first.entries, req2, words);
    LookupValid(first.entries, id, words);
    Replay(first.reply, FirstRequest, words);
  }

  /** A replay answer typed as 'y' or 'Y' asks for the next word, 'n' or
      'N' quits, and every other byte is rejected with status 1. */
  lemma ReplayKeystroke(e: Entry, c: CChar, words: seq<string>)
    requires Valid(e, words) && 0 <= e.status <= 1
    ensures
      var r := Step(e, FoldReplay(c), words);
      && (c == 'y' || c == 'Y' ==> r.status == (if e.index + 1 < |words| then 2 else -1))
      && (c == 'n' || c == 'N' ==> r.status == -1 && r.info == QuitInfo)
      && (c != 'y' && c != 'Y' && c != 'n' && c != 'N' ==> r.status == 1 && r.info == InvalidReplyInfo)
  {
    Replay(e, FoldReplay(c), words);
  }

  /** In a round, a typed letter of either case is recorded in its slot (as
      a new guess or as one already made); any other byte is rejected with
      "Invalid input." and changes nothing else. */
  lemma GuessKeystroke(e: Entry, c: CChar, words: seq<string>)
    requires Valid(e, words) && e.status >= 2
    ensures
      var g := FoldGuess(c);
      var r := Step(e, g, words);
      && (IsLetter(c) ==> r.guessed[LetterIndex(g)] == g)
      && (!IsLetter(c) ==> r == e.(status := 3, info := InvalidGuessInfo))
  {
    var g := FoldGuess(c);
    if IsLetter(c) {
      GuessedSlot(e.guessed, g);
      if g !in e.guessed {
        NewLetter(e, g, words);
      }
    }
  }

  /** When a request ends a round, the verdict the client shows agrees with
      the tally the server kept: LOSE exactly when a loss was counted, WIN
      exactly when a win was. */
  lemma VerdictMatchesTally(e: Entry, send: char, words: seq<string>)
    requires Valid(e, words) && e.status >= 2
    requires Step(e, send, words).status == 0
    ensures
      var r := Step(e, send, words);
      && (RoundVerdict(r.wrongGuesses) == Lose <==> r.losses == e.losses + 1)
      && (RoundVerdict(r.wrongGuesses) == Win <==> r.wins == e.wins + 1)
  {
    RoundEnd(e, send, words);
  }
}
