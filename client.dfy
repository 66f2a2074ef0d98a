/**
 * The client's side of a session: after the handshake it sends 'Y', then
 * after every reply it chooses the next request from the reply's status and
 * the first character the player typed, until the server ends the session.
 */
module HangmanClient {
  import opened Hangman

  /** A byte read from the terminal, as the client's `char` holds it. */
  type CChar = c: char | c as int < 256

  /** The request of the handshake, sent before the loop. */
  const HandshakeRequest: CChar := '\0'
  /** The first request of the loop. */
  const FirstRequest: CChar := 'Y'

  /** The value of a byte in a signed 8-bit `char`. */
  function Signed(c: CChar): int
  {
    if c as int < 128 then c as int else c as int - 256
  }

  /** The byte 32 below c, for a c of at least 32. */
  function Shift(c: CChar): CChar
    requires c as int >= 32
  {
    (c as int - 32) as char
  }

  /** A guess is folded to upper case: lower-case letters are shifted by 32
      to the same letter in upper case, every other byte is sent as typed. */
  function FoldGuess(c: CChar): (r: CChar)
    ensures !IsLower(r)
    ensures IsUpper(r) <==> IsLetter(c)
    ensures IsLower(c) ==> r as int == c as int - 32 && LetterIndex(r) == c as int - 'a' as int
    ensures !IsLower(c) ==> r == c
  {
    if 'a' <= c <= 'z' then Shift(c) else c
  }

  /** A replay answer is shifted by 32 when, as a signed char, it is at
      least 'y', or when it is 'n'. So 'y' and 'n' become 'Y' and 'N', and
      so do 'z' .. DEL become 'Z' .. '_'; other lower-case letters and
      bytes of 128 and above are sent as typed. */
  function FoldReplay(c: CChar): (r: CChar)
    ensures r != c <==> c == 'n' || ('y' <= c && c as int <= 127)
    ensures r != c ==> r as int == c as int - 32
    ensures r == 'Y' <==> c == 'y' || c == 'Y'
    ensures r == 'N' <==> c == 'n' || c == 'N'
  {
    if Signed(c) >= 'y' as int || c == 'n' then Shift(c) else c
  }

  /** The next request: the first character typed, or the previous request
      when nothing could be read, folded by the rule of the last status. */
  function NextRequest(status: int, previous: CChar, input: Option<CChar>): (r: CChar)
    ensures var c := if input.Some? then input.value else previous;
      && (status >= 2 ==> !IsLower(r) && (IsUpper(r) <==> IsLetter(c)))
      && (status >= 2 ==> (IsLower(c) ==> r as int == c as int - 32) && (!IsLower(c) ==> r == c))
      && (status < 2 ==> (r == 'Y' <==> c == 'y' || c == 'Y') && (r == 'N' <==> c == 'n' || c == 'N'))
      && (status < 2 ==> (r != c <==> c == 'n' || ('y' <= c && c as int <= 127)))
      && (status < 2 ==> (r != c ==> r as int == c as int - 32))
  {
    var c := if input.Some? then input.value else previous;
    if status >= 2 then FoldGuess(c) else FoldReplay(c)
  }

  /** A failed read repeats the last request as long as the status stays on
      the same side of 2: both folds are idempotent. */
  lemma FailedReadRepeats(status: int, previous: CChar, input: Option<CChar>)
    ensures NextRequest(status, NextRequest(status, previous, input), None) ==
            NextRequest(status, previous, input)
  {
  }

  datatype Verdict = Win | Lose

  /** The verdict shown for a finished round (status 0). */
  function RoundVerdict(wrongGuesses: int): Verdict
  {
    if wrongGuesses == MaxWrongGuesses then Lose else Win
  }

  /** One turn of the loop: the record the server replies with, and the
      first character of the line the player then types (None when the read
      fails). */
  datatype Turn = Turn(reply: Entry, input: Option<CChar>)

  /** What the client did: the requests it sent, the verdicts it showed,
      and its exit code (None while replies are still awaited). */
  datatype Session = Session(sent: seq<CChar>, verdicts: seq<Verdict>, exit: Option<int>)

  /** The session of a client whose last known status is `status` and
      whose next request is `send`, given the turns to come. */
  function Drive(status: int, send: CChar, turns: seq<Turn>): (s: Session)
    ensures s.exit.Some? ==> s.exit.value == 0 || s.exit.value == -2
    decreases |turns|
  {
    if status <= -2 then Session([], [], Some(-2))
    else if turns == [] then Session([], [], None)
    else
      var r := turns[0].reply;
      if r.status == -1 then Session([send], [], Some(0))
      else
        var verdict := if r.status == 0 then [RoundVerdict(r.wrongGuesses)] else [];
        var rest := Drive(r.status, NextRequest(r.status, send, turns[0].input), turns[1..]);
        Session([send] + rest.sent, verdict + rest.verdicts, rest.exit)
  }

  /** The shape of a session: one request per reply read, the first being
      `send` and each later one chosen by NextRequest from the reply before
      it; the loop goes on past a reply exactly when its status is neither
      -1 nor below -1; status -1 exits with 0, a status of -2 or below
      (including the one known before the loop) exits with -2, and running
      out of replies leaves the session open. */
  lemma {:induction false} DriveShape(status: int, send: CChar, turns: seq<Turn>)
    ensures var s := Drive(status, send, turns);
      && |s.sent| <= |turns|
      && (|s.sent| > 0 ==> s.sent[0] == send)
      && (forall i :: 0 <= i < |s.sent| - 1 ==>
            turns[i].reply.status > -2 && turns[i].reply.status != -1 &&
            s.sent[i + 1] == NextRequest(turns[i].reply.status, s.sent[i], turns[i].input))
      && (s.exit.None? <==> (status > -2 && |s.sent| == |turns| &&
            (|turns| == 0 || (turns[|turns| - 1].reply.status > -2 && turns[|turns| - 1].reply.status != -1))))
      && (s.exit == Some(0) <==> |s.sent| > 0 && turns[|s.sent| - 1].reply.status == -1)
      && (s.exit == Some(-2) <==>
            (if |s.sent| == 0 then status <= -2 else turns[|s.sent| - 1].reply.status <= -2))
    decreases |turns|
  {
    if status > -2 && turns != [] && turns[0].reply.status != -1 {
      var r := turns[0].reply;
      var next := NextRequest(r.status, send, turns[0].input);
      var rest := Drive(r.status, next, turns[1..]);
      DriveShape(r.status, next, turns[1..]);
      var sent := [send] + rest.sent;
      assert forall i :: 0 < i < |sent| ==> sent[i] == rest.sent[i - 1];
      assert forall i :: 0 < i < |turns| ==> turns[i] == turns[1..][i - 1];
    }
  }

  /** The verdicts shown while reading the given replies: one per reply of
      status 0, in order. */
  function VerdictsShown(turns: seq<Turn>): seq<Verdict>
  {
    if turns == [] then []
    else
      (if turns[0].reply.status == 0 then [RoundVerdict(turns[0].reply.wrongGuesses)] else []) +
      VerdictsShown(turns[1..])
  }

  /** The verdicts of a session are exactly, in order, the verdicts of the
      status-0 replies among those the client read. */
  lemma {:induction false} DriveVerdicts(status: int, send: CChar, turns: seq<Turn>)
    ensures var s := Drive(status, send, turns);
      |s.sent| <= |turns| && s.verdicts == VerdictsShown(turns[..|s.sent|])
    decreases |turns|
  {
    var s := Drive(status, send, turns);
    if status <= -2 || turns == [] {
      assert turns[..0] == [];
    } else if turns[0].reply.status == -1 {
      assert turns[..1][1..] == [];
    } else {
      var r := turns[0].reply;
      var next := NextRequest(r.status, send, turns[0].input);
      var rest := Drive(r.status, next, turns[1..]);
      DriveVerdicts(r.status, next, turns[1..]);
      var n := |rest.sent|;
      assert turns[..n + 1][0] == turns[0];
      assert turns[..n + 1][1..] == turns[1..][..n];
    }
  }

  /** A turn of the loop that does not end the session moves one request
      and at most one verdict from the rest of the session to what was done. */
  lemma DriveTurn(status: int, send: CChar, tail: seq<Turn>, sent: seq<CChar>, verdicts: seq<Verdict>)
    requires status > -2 && tail != [] && tail[0].reply.status != -1
    ensures
      var r := tail[0].reply;
      var a := Drive(status, send, tail);
      var b := Drive(r.status, NextRequest(r.status, send, tail[0].input), tail[1..]);
      var shown := if r.status == 0 then [RoundVerdict(r.wrongGuesses)] else [];
      Session(sent + a.sent, verdicts + a.verdicts, a.exit) ==
        Session((sent + [send]) + b.sent, (verdicts + shown) + b.verdicts, b.exit)
  {
    var r := tail[0].reply;
    var b := Drive(r.status, NextRequest(r.status, send, tail[0].input), tail[1..]);
    var shown := if r.status == 0 then [RoundVerdict(r.wrongGuesses)] else [];
    assert sent + ([send] + b.sent) == (sent + [send]) + b.sent;
    assert verdicts + (shown + b.verdicts) == (verdicts + shown) + b.verdicts;
  }

  /** The client's loop from the status the handshake left in the slot. */
  method RunClient(handshake: int, turns: seq<Turn>) returns (s: Session)
    ensures s == Drive(handshake, FirstRequest, turns)
  {
    var send: CChar := FirstRequest;
    var status := handshake;
    var sent: seq<CChar> := [];
    var verdicts: seq<Verdict> := [];
    var i := 0;
    while status > -2 && i < |turns|
      invariant i <= |turns|
      decreases |turns| - i
      invariant Drive(handshake, FirstRequest, turns) ==
        var rest := Drive(status, send, turns[i..]);
        Session(sent + rest.sent, verdicts + rest.verdicts, rest.exit)
    {
      var reply := turns[i].reply;
      if reply.status == -1 {
        return Session(sent + [send], verdicts, Some(0));
      }
      var c := NextRequest(reply.status, send, turns[i].input);
      DriveTurn(status, send, turns[i..], sent, verdicts);
      assert turns[i..][1..] == turns[i + 1..];
      sent := sent + [send];
      if reply.status == 0 {
        verdicts := verdicts + [RoundVerdict(reply.wrongGuesses)];
      }
      send := c;
      status := reply.status;
      i := i + 1;
    }
    if status > -2 {
      assert turns[i..] == [];
    }
    s := Session(sent, verdicts, if status <= -2 then Some(-2) else None);
  }
}
