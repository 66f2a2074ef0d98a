/**
 * The server's client registry: a list of per-client records keyed by id.
 * The linked list of the source is modelled as a sequence in list order;
 * a pointer to a record becomes its position in the sequence.
 */
module ClientRegistry {
  import opened Hangman

  /** The record created for a client seen for the first time: not in game,
      no word chosen yet (index -1), empty progress and message, no tallies,
      every letter slot unguessed. */
  function NewEntry(id: int): (e: Entry)
    ensures e.id == id && e.status == 0 && e.index == -1 && e.wrongGuesses == 0
    ensures e.wins == 0 && e.losses == 0 && e.word == [] && e.info == []
    ensures |e.guessed| == AlphabetSize && forall j :: 0 <= j < |e.guessed| ==> e.guessed[j] == '_'
  {
    Entry(id, 0, "", 0, -1, "", Unguessed(), 0, 0)
  }

  /** Position of the first record with the given id, or None. */
  function Find(entries: seq<Entry>, id: int): (r: Option<nat>)
    ensures r.Some? ==> r.value < |entries| && entries[r.value].id == id
    ensures r.Some? ==> forall j :: 0 <= j < r.value ==> entries[j].id != id
    ensures r.None? ==> forall j :: 0 <= j < |entries| ==> entries[j].id != id
  {
    if entries == [] then None
    else if entries[0].id == id then Some(0)
    else match Find(entries[1..], id)
      case None => None
      case Some(k) => Some(k + 1)
  }

  /** The record the server finds for an id. */
  function Lookup(entries: seq<Entry>, id: int): Option<Entry>
  {
    match Find(entries, id)
    case None => None
    case Some(k) => Some(entries[k])
  }

  /** Where a new record goes: the head of an empty list, else second. */
  function AddedAt(entries: seq<Entry>): nat
  {
    if entries == [] then 0 else 1
  }

  /** The list after a new record is linked in. */
  function Inserted(entries: seq<Entry>, e: Entry): (r: seq<Entry>)
    ensures |r| == |entries| + 1
    ensures r[AddedAt(entries)] == e
    ensures r[..AddedAt(entries)] + r[AddedAt(entries) + 1..] == entries
  {
    if entries == [] then [e] else [entries[0], e] + entries[1..]
  }

  /** The list after the first record with the given id is unlinked. */
  function Removed(entries: seq<Entry>, id: int): (r: seq<Entry>)
    ensures Find(entries, id).None? ==> r == entries
    ensures Find(entries, id).Some? ==>
      r == entries[..Find(entries, id).value] + entries[Find(entries, id).value + 1..]
  {
    if entries == [] then []
    else if entries[0].id == id then entries[1..]
    else
      var rest := Removed(entries[1..], id);
      ConsSkip(entries, Find(entries[1..], id));
      [entries[0]] + rest
  }

  /** Putting the head back in front of the tail with position k taken out
      gives the list with position k + 1 taken out. */
  lemma ConsSkip(s: seq<Entry>, k: Option<nat>)
    requires s != [] && (k.Some? ==> k.value < |s| - 1)
    ensures k.Some? ==>
      [s[0]] + (s[1..][..k.value] + s[1..][k.value + 1..]) == s[..k.value + 1] + s[k.value + 2..]
  {
    if k.Some? {
      assert [s[0]] + s[1..][..k.value] == s[..k.value + 1];
      assert s[1..][k.value + 1..] == s[k.value + 2..];
    }
  }

  /** No two records share an id. */
  ghost predicate Distinct(entries: seq<Entry>)
  {
    forall i, j :: 0 <= i < j < |entries| ==> entries[i].id != entries[j].id
  }

  /** Replacing the record found for `id` by one with the same id leaves
      every other id's record where it was. */
  lemma LookupOthersAfterPut(entries: seq<Entry>, id: int, e: Entry, other: int)
    requires Find(entries, id).Some? && e.id == id && other != id
    ensures Lookup(entries[Find(entries, id).value := e], other) == Lookup(entries, other)
  {
    var k := Find(entries, id).value;
    var updated := entries[k := e];
    match Find(entries, other)
    case None =>
      assert forall j :: 0 <= j < |updated| ==> updated[j].id != other;
    case Some(m) =>
      assert m != k;
      assert updated[m].id == other;
      assert forall j :: 0 <= j < m ==> updated[j].id != other;
  }

  /** The replaced record is still the one found for its id. */
  lemma FindAfterPut(entries: seq<Entry>, id: int, e: Entry)
    requires Find(entries, id).Some? && e.id == id
    ensures Find(entries[Find(entries, id).value := e], id) == Find(entries, id)
  {
    var k := Find(entries, id).value;
    var updated := entries[k := e];
    assert forall j :: 0 <= j < k ==> updated[j].id != id;
    assert updated[k].id == id;
  }

  /** Linking in a record for an id that is absent: that record is the one
      now found for the id, and every other id's record is unchanged. */
  lemma {:induction false} LookupAfterInsert(entries: seq<Entry>, e: Entry, other: int)
    requires Find(entries, e.id).None?
    ensures Find(Inserted(entries, e), e.id) == Some(AddedAt(entries))
    ensures other != e.id ==> Lookup(Inserted(entries, e), other) == Lookup(entries, other)
  {
    var r := Inserted(entries, e);
    var a := AddedAt(entries);
    assert forall j :: 0 <= j < a ==> r[j].id != e.id;
    if other != e.id && entries != [] {
      var rest := entries[1..];
      assert r[1..] == [e] + rest;
      assert ([e] + rest)[1..] == rest;
      LookupShift(r, other);
      LookupShift(r[1..], other);
      LookupShift(entries, other);
    }
  }

  /** Unlinking the first record of `id` leaves every other id's record. */
  lemma {:induction false} LookupAfterRemove(entries: seq<Entry>, id: int, other: int)
    requires other != id
    ensures Lookup(Removed(entries, id), other) == Lookup(entries, other)
  {
    if entries != [] {
      var rest := entries[1..];
      if entries[0].id == id {
        assert Removed(entries, id) == rest;
        LookupShift(entries, other);
      } else {
        var r := [entries[0]] + Removed(rest, id);
        assert Removed(entries, id) == r;
        assert r[1..] == Removed(rest, id);
        LookupAfterRemove(rest, id, other);
        LookupShift(entries, other);
        LookupShift(r, other);
      }
    }
  }

  /** Past a head whose id differs, the lookup continues in the tail. */
  lemma LookupShift(entries: seq<Entry>, other: int)
    requires entries != []
    ensures Lookup(entries, other) ==
      if entries[0].id == other then Some(entries[0]) else Lookup(entries[1..], other)
  {
    if entries[0].id != other {
      match Find(entries[1..], other)
      case None =>
      case Some(k) => assert entries[k + 1] == entries[1..][k];
    }
  }

  /** With distinct ids, unlinking `id` leaves no record of it, and the ids
      stay distinct. */
  lemma RemovedDistinct(entries: seq<Entry>, id: int)
    requires Distinct(entries)
    ensures Find(Removed(entries, id), id).None?
    ensures Distinct(Removed(entries, id))
  {
    var r := Removed(entries, id);
    match Find(entries, id)
    case None =>
    case Some(k) =>
      SkipSlices(entries, k);
      SkipDistinct(r, entries, k);
  }

  /** Taking out position k by slicing. */
  lemma SkipSlices(s: seq<Entry>, k: nat)
    requires k < |s|
    ensures Skip(s[..k] + s[k + 1..], s, k)
  {
  }

  /** Taking one record out of a list with distinct ids leaves distinct ids,
      none of them the id taken out. */
  lemma SkipDistinct(r: seq<Entry>, s: seq<Entry>, k: nat)
    requires Skip(r, s, k) && Distinct(s)
    ensures Distinct(r)
    ensures forall j :: 0 <= j < |r| ==> r[j].id != s[k].id
  {
    forall i, j | 0 <= i < j < |r|
      ensures r[i].id != r[j].id
    {
      var i', j' := if i < k then i else i + 1, if j < k then j else j + 1;
      assert r[i] == s[i'] && r[j] == s[j'] && i' < j';
    }
    forall j | 0 <= j < |r|
      ensures r[j].id != s[k].id
    {
      var j' := if j < k then j else j + 1;
      assert r[j] == s[j'] && j' != k;
    }
  }

  /** r is s with the element at position k taken out. */
  ghost predicate Skip(r: seq<Entry>, s: seq<Entry>, k: nat)
  {
    k < |s| && |r| == |s| - 1 &&
    forall j :: 0 <= j < |r| ==> r[j] == s[if j < k then j else j + 1]
  }

  /**
   * The registry object: the list head and its nodes in list order.
   */
  class Registry {
    var entries: seq<Entry>

    constructor ()
      ensures entries == []
    {
      entries := [];
    }

    /** Walks the list and counts its records. */
    method Count() returns (n: nat)
      ensures n == |entries|
    {
      n := 0;
      var rest := entries;
      while rest != []
        invariant n + |rest| == |entries|
      {
        n := n + 1;
        rest := rest[1..];
      }
    }

    /** Walks the list and returns the position of the first record whose
        id matches, or None when there is none. */
    method Get(id: int) returns (r: Option<nat>)
      ensures r == Find(entries, id)
    {
      var i := 0;
      while i < |entries|
        invariant i <= |entries|
        invariant forall j :: 0 <= j < i ==> entries[j].id != id
      {
        if entries[i].id == id {
          return Some(i);
        }
        i := i + 1;
      }
      return None;
    }

    /** Links in a fresh record for `id`, as the head of an empty list and
        otherwise right after the head; returns its position. */
    method Add(id: int) returns (k: nat)
      modifies this
      ensures k == AddedAt(old(entries))
      ensures entries == Inserted(old(entries), NewEntry(id))
      ensures |entries| == |old(entries)| + 1 && entries[k] == NewEntry(id)
    {
      if entries == [] {
        entries := [NewEntry(id)];
        k := 0;
      } else {
        entries := [entries[0], NewEntry(id)] + entries[1..];
        k := 1;
      }
    }

    /** Writes a record back through its position. */
    method Put(k: nat, e: Entry)
      requires k < |entries|
      modifies this
      ensures entries == old(entries)[k := e]
    {
      entries := entries[k := e];
    }

    /** Unlinks the first record whose id matches; nothing when absent. */
    method Remove(id: int)
      modifies this
      ensures entries == Removed(old(entries), id)
    {
      var r := Get(id);
      if r.Some? {
        entries := entries[..r.value] + entries[r.value + 1..];
      }
    }
  }
}
