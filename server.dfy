/**
 * One iteration of the server loop: read the request from the shared slot,
 * find or register the client's record, run the game step (or the
 * disconnect), copy the record back into the slot, and drop the record of
 * a client whose status became -1.
 */
module HangmanServer {
  import opened Hangman
  import opened ClientRegistry
  import opened Game
  import opened WordList

  /** What a client writes into the shared slot: its id, the request
      character, and the disconnect flag (0 for a normal request). */
  datatype Request = Request(id: int, send: char, signal: int)

  /** The registry after a request, and the record copied back to the client. */
  datatype Outcome = Outcome(entries: seq<Entry>, reply: Entry)

  /** Every record keeps the game invariant and none is waiting for removal. */
  ghost predicate AllLive(entries: seq<Entry>, words: seq<string>)
  {
    forall i :: 0 <= i < |entries| ==> Valid(entries[i], words) && entries[i].status != -1
  }

  /** The registry invariant: distinct ids, and every record live and valid. */
  ghost predicate RegistryValid(entries: seq<Entry>, words: seq<string>)
  {
    Distinct(entries) && AllLive(entries, words)
  }

  /** A new record is valid for any word list: the replay question is open
      and no round was started. */
  lemma NewEntryValid(id: int, words: seq<string>)
    ensures Valid(NewEntry(id), words) && NewEntry(id).status == 0
  {
  }

  /** The list holding a record for `id`, and that record's position: the
      record found by the lookup, or a new record linked in when none is. */
  function Admit(entries: seq<Entry>, id: int): (r: (seq<Entry>, nat))
    ensures r.1 < |r.0| && Find(r.0, id) == Some(r.1)
    ensures Find(entries, id).Some? ==> r == (entries, Find(entries, id).value)
    ensures Find(entries, id).None? ==> r == (Inserted(entries, NewEntry(id)), AddedAt(entries))
  {
    match Find(entries, id)
    case Some(k) => (entries, k)
    case None =>
      LookupAfterInsert(entries, NewEntry(id), id);
      (Inserted(entries, NewEntry(id)), AddedAt(entries))
  }

  /** Admitting keeps the registry invariant. */
  lemma AdmitKeepsValid(entries: seq<Entry>, id: int, words: seq<string>)
    requires RegistryValid(entries, words)
    ensures RegistryValid(Admit(entries, id).0, words)
  {
    if Find(entries, id).None? {
      var e := NewEntry(id);
      var r := Inserted(entries, e);
      var a := AddedAt(entries);
      NewEntryValid(id, words);
      forall j | 0 <= j < |r|
        ensures Valid(r[j], words) && r[j].status != -1
        ensures j != a ==> r[j] == entries[if j < a then j else j - 1]
      {
        if j != a {
          assert r[..a] + r[a + 1..] == entries;
          assert r[j] == (r[..a] + r[a + 1..])[if j < a then j else j - 1];
        }
      }
      forall i, j | 0 <= i < j < |r|
        ensures r[i].id != r[j].id
      {
        var i', j' := if i < a then i else i - 1, if j < a then j else j - 1;
        if i != a && j != a {
          assert i' < j';
        }
      }
    }
  }

  /** The client's record after its request: a disconnect marks it for
      removal, any other request runs the game step. */
  function Respond(e: Entry, req: Request, words: seq<string>): (r: Entry)
    requires Valid(e, words)
    ensures r.id == e.id && Valid(r, words)
    ensures req.signal != 0 ==> r.status == -1
  {
    if req.signal == 0 then
      StepKeepsValid(e, req.send, words);
      Step(e, req.send, words)
    else Disconnect(e)
  }

  /** The list after the record at position k is written back, and then
      unlinked if its status is -1. */
  function Commit(list: seq<Entry>, k: nat, next: Entry): (r: seq<Entry>)
    requires k < |list|
    ensures next.status != -1 ==> |r| == |list| && r[k] == next
    ensures next.status == -1 ==> |r| == |list| || |r| == |list| - 1
  {
    var updated := list[k := next];
    if next.status == -1 then Removed(updated, next.id) else updated
  }

  /** Writing back a valid record over the one found for its id keeps the
      registry invariant. */
  lemma CommitKeepsValid(list: seq<Entry>, k: nat, next: Entry, words: seq<string>)
    requires RegistryValid(list, words)
    requires k < |list| && Find(list, next.id) == Some(k) && Valid(next, words)
    ensures RegistryValid(Commit(list, k, next), words)
  {
    var updated := list[k := next];
    FindAfterPut(list, next.id, next);
    assert Distinct(updated) by {
      forall i, j | 0 <= i < j < |updated|
        ensures updated[i].id != updated[j].id
      {
        assert updated[i].id == list[i].id && updated[j].id == list[j].id;
      }
    }
    if next.status == -1 {
      var out := Removed(updated, next.id);
      RemovedDistinct(updated, next.id);
      assert out == updated[..k] + updated[k + 1..];
      forall j | 0 <= j < |out|
        ensures Valid(out[j], words) && out[j].status != -1
      {
        if j < k {
          assert out[j] == list[j];
        } else {
          assert out[j] == updated[j + 1] == list[j + 1];
        }
      }
    }
  }

  /** After the write-back the record's id finds the new record, or nothing
      when it was unlinked; every other id finds what it found before. */
  lemma CommitLookup(list: seq<Entry>, k: nat, next: Entry, words: seq<string>, other: int)
    requires RegistryValid(list, words)
    requires k < |list| && Find(list, next.id) == Some(k)
    ensures Lookup(Commit(list, k, next), next.id) == if next.status == -1 then None else Some(next)
    ensures other != next.id ==> Lookup(Commit(list, k, next), other) == Lookup(list, other)
    ensures |Commit(list, k, next)| == |list| - (if next.status == -1 then 1 else 0)
  {
    var updated := list[k := next];
    FindAfterPut(list, next.id, next);
    if other != next.id {
      LookupOthersAfterPut(list, next.id, next, other);
    }
    if next.status == -1 {
      assert Distinct(updated) by {
        forall i, j | 0 <= i < j < |updated|
          ensures updated[i].id != updated[j].id
        {
          assert updated[i].id == list[i].id && updated[j].id == list[j].id;
        }
      }
      RemovedDistinct(updated, next.id);
      if other != next.id {
        LookupAfterRemove(updated, next.id, other);
      }
    }
  }

  /** The server's handling of one request. A disconnect must come from a
      registered client. */
  function Handle(entries: seq<Entry>, req: Request, words: seq<string>): (out: Outcome)
    requires RegistryValid(entries, words)
    requires req.signal != 0 ==> Find(entries, req.id).Some?
    ensures out.reply.id == req.id
    ensures req.signal != 0 ==> out.reply.status == -1
    ensures |entries| - 1 <= |out.entries| <= |entries| + 1
  {
    var admitted := Admit(entries, req.id);
    AdmitKeepsValid(entries, req.id, words);
    var next := Respond(admitted.0[admitted.1], req, words);
    Outcome(Commit(admitted.0, admitted.1, next), next)
  }

  /** Handling a request keeps the registry invariant. */
  lemma HandleKeepsValid(entries: seq<Entry>, req: Request, words: seq<string>)
    requires RegistryValid(entries, words)
    requires req.signal != 0 ==> Find(entries, req.id).Some?
    ensures RegistryValid(Handle(entries, req, words).entries, words)
  {
    var admitted := Admit(entries, req.id);
    AdmitKeepsValid(entries, req.id, words);
    var next := Respond(admitted.0[admitted.1], req, words);
    CommitKeepsValid(admitted.0, admitted.1, next, words);
  }

  /** The reply is the client's record after the request: a disconnect
      marks the existing record; any other request runs the game step on the
      existing record, or on a new one for a client seen for the first time.
      Afterwards the registry holds the reply for the client, unless its
      status is -1, in which case it holds none. */
  lemma HandleReply(entries: seq<Entry>, req: Request, words: seq<string>)
    requires RegistryValid(entries, words)
    requires req.signal != 0 ==> Find(entries, req.id).Some?
    ensures
      var out := Handle(entries, req, words);
      && out.reply.id == req.id
      && (req.signal != 0 ==> out.reply == Disconnect(Lookup(entries, req.id).value))
      && (req.signal == 0 && Find(entries, req.id).Some? ==>
            out.reply == Step(Lookup(entries, req.id).value, req.send, words))
      && (req.signal == 0 && Find(entries, req.id).None? ==>
            Valid(NewEntry(req.id), words) && out.reply == Step(NewEntry(req.id), req.send, words))
      && Lookup(out.entries, req.id) == if out.reply.status == -1 then None else Some(out.reply)
  {
    var admitted := Admit(entries, req.id);
    AdmitKeepsValid(entries, req.id, words);
    NewEntryValid(req.id, words);
    var next := Respond(admitted.0[admitted.1], req, words);
    CommitLookup(admitted.0, admitted.1, next, words, req.id);
  }

  /** A request changes no other client's record. */
  lemma HandleIsolation(entries: seq<Entry>, req: Request, words: seq<string>, other: int)
    requires RegistryValid(entries, words)
    requires req.signal != 0 ==> Find(entries, req.id).Some?
    requires other != req.id
    ensures Lookup(Handle(entries, req, words).entries, other) == Lookup(entries, other)
  {
    var admitted := Admit(entries, req.id);
    AdmitKeepsValid(entries, req.id, words);
    var next := Respond(admitted.0[admitted.1], req, words);
    if Find(entries, req.id).None? {
      LookupAfterInsert(entries, NewEntry(req.id), other);
    }
    CommitLookup(admitted.0, admitted.1, next, words, other);
  }

  /** The number of registered clients grows by one for a first request and
      shrinks by one when the reply's status is -1. */
  lemma HandleCount(entries: seq<Entry>, req: Request, words: seq<string>)
    requires RegistryValid(entries, words)
    requires req.signal != 0 ==> Find(entries, req.id).Some?
    ensures
      var out := Handle(entries, req, words);
      |out.entries| == |entries| + (if Find(entries, req.id).None? then 1 else 0)
                                 - (if out.reply.status == -1 then 1 else 0)
  {
    var admitted := Admit(entries, req.id);
    AdmitKeepsValid(entries, req.id, words);
    var next := Respond(admitted.0[admitted.1], req, words);
    CommitLookup(admitted.0, admitted.1, next, words, req.id);
  }

  /**
   * The shared record: the request fields the client writes and the reply
   * fields the server copies back.
   */
  class Slot {
    var id: int
    var send: char
    var signal: int
    var status: int
    var info: string
    var wrongGuesses: int
    var index: int
    var word: string
    var guessed: seq<char>
    var wins: int
    var losses: int

    constructor ()
      ensures Incoming() == Request(0, '\0', 0)
      ensures Shown() == Entry(0, 0, "", 0, 0, "", [], 0, 0)
    {
      id, send, signal := 0, '\0', 0;
      status, info, wrongGuesses, index := 0, "", 0, 0;
      word, guessed, wins, losses := "", [], 0, 0;
    }

    /** The request currently in the slot. */
    function Incoming(): Request
      reads this
    {
      Request(id, send, signal)
    }

    /** The record the client reads from the slot. */
    function Shown(): Entry
      reads this
    {
      Entry(id, status, info, wrongGuesses, index, word, guessed, wins, losses)
    }

    /** Copies a record's reply fields into the slot; the request fields
        (id, request character, disconnect flag) are left as they are. */
    method Publish(e: Entry)
      modifies this
      ensures Shown() == e.(id := old(id))
      ensures Incoming() == old(Incoming())
    {
      status := e.status;
      wrongGuesses := e.wrongGuesses;
      index := e.index;
      wins := e.wins;
      losses := e.losses;
      guessed := e.guessed;
      word := e.word;
      info := e.info;
    }
  }

  /**
   * The server: the word list read at start-up, the client registry and
   * the shared slot.
   */
  class Server {
    const words: seq<string>
    const registry: Registry
    const slot: Slot

    ghost predicate Valid()
      reads this, registry
    {
      RegistryValid(registry.entries, words)
    }

    /** Reads the word list from the text and starts with no clients. */
    constructor (text: string)
      ensures words == Tokenize(text)
      ensures registry.entries == [] && Valid()
      ensures fresh(registry) && fresh(slot)
    {
      var list := ReadFile(text);
      words := list;
      registry := new Registry();
      slot := new Slot();
    }

    /** Serves the request in the slot: the registry and the slot's reply
        become what Handle prescribes, and the invariant is kept. */
    method Serve()
      requires Valid()
      requires slot.signal != 0 ==> Find(registry.entries, slot.id).Some?
      modifies registry, slot
      ensures Valid()
      ensures registry.entries == Handle(old(registry.entries), old(slot.Incoming()), words).entries
      ensures slot.Shown() == Handle(old(registry.entries), old(slot.Incoming()), words).reply
      ensures slot.Incoming() == old(slot.Incoming())
    {
      ghost var before := registry.entries;
      var id := slot.id;
      var found := registry.Get(id);
      var k: nat;
      if found.None? {
        k := registry.Add(id);
      } else {
        k := found.value;
      }
      assert registry.entries == Admit(before, id).0 && k == Admit(before, id).1;
      AdmitKeepsValid(before, id, words);
      ghost var list := registry.entries;
      var next: Entry;
      if slot.signal == 0 {
        next := Transition(registry.entries[k], slot.send, words);
      } else {
        next := Disconnect(registry.entries[k]);
      }
      assert next == Respond(list[k], old(slot.Incoming()), words);
      registry.Put(k, next);
      slot.Publish(next);
      if next.status == -1 {
        registry.Remove(id);
      }
      assert registry.entries == Commit(list, k, next);
      CommitKeepsValid(list, k, next, words);
    }
  }
}
