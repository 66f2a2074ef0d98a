/**
 * Definitions shared by the hangman server and client: the per-client
 * record kept by the server (struct hangmanData), its constants, and the
 * character classes both programs test.
 */
module Hangman {

  datatype Option<T> = None | Some(value: T)

  /** Capacity of the word and line buffers. */
  const MaxWordLength: nat := 128
  /** Slots in `guessed`: one per letter 'A'..'Z'. */
  const AlphabetSize: nat := 26
  /** Wrong guesses that end a round as a loss. */
  const MaxWrongGuesses: nat := 9

  /** One client's session as the server keeps it (and as it is copied back
      into the shared slot). `word` is the revealed progress, `guessed` the
      26 letter slots, `wins`/`losses` the session tallies. */
  datatype Entry = Entry(
    id: int,
    status: int,
    info: string,
    wrongGuesses: int,
    index: int,
    word: string,
    guessed: seq<char>,
    wins: int,
    losses: int)

  predicate IsUpper(c: char) { 'A' <= c <= 'Z' }
  predicate IsLower(c: char) { 'a' <= c <= 'z' }
  predicate IsLetter(c: char) { IsUpper(c) || IsLower(c) }

  /** The slot of `guessed` that belongs to an upper-case letter. */
  function LetterIndex(c: char): nat
    requires IsUpper(c)
  {
    c as int - 'A' as int
  }

  /** The letter whose slot is j. */
  function LetterAt(j: nat): char
    requires j < AlphabetSize
  {
    ('A' as int + j) as char
  }

  /** n underscores: a fully hidden word of length n. */
  function Blank(n: nat): string
  {
    seq(n, _ => '_')
  }

  /** All 26 slots unguessed. */
  function Unguessed(): seq<char>
  {
    Blank(AlphabetSize)
  }
}
