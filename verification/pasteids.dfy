/**
 * Paste identifiers and storage keys (`src/handlers.rs`): seven characters
 * drawn from rand's alphanumeric alphabet, joined to the language by a `.`.
 * The random source is the sequence of alphabet positions it yields.
 */
module PasteIds {
  /** Number of characters `create_paste` takes from the sampler. */
  const IdLength := 7

  /** Size of the alphabet `A-Z a-z 0-9`, in that order. */
  const AlphabetSize := 62

  /** One draw of the sampler: a position in the alphabet. */
  type AlphabetIndex = i: nat | i < AlphabetSize

  predicate IsAlphanumeric(c: char) {
    ('A' <= c <= 'Z') || ('a' <= c <= 'z') || ('0' <= c <= '9')
  }

  /** The alphabet character at position `i`: upper case, lower case, digits. */
  function AlphabetChar(i: AlphabetIndex): (c: char)
    ensures IsAlphanumeric(c)
  {
    if i < 26 then (65 + i) as char
    else if i < 52 then (97 + (i - 26)) as char
    else (48 + (i - 52)) as char
  }

  /** The position of an alphanumeric character in the alphabet. */
  function AlphabetIndexOf(c: char): (i: AlphabetIndex)
    requires IsAlphanumeric(c)
    ensures AlphabetChar(i) == c
  {
    if 'A' <= c <= 'Z' then c as int - 65
    else if 'a' <= c <= 'z' then c as int - 97 + 26
    else c as int - 48 + 52
  }

  /** Each position names a different character. */
  lemma AlphabetCharInjective(i: AlphabetIndex, j: AlphabetIndex)
    ensures AlphabetChar(i) == AlphabetChar(j) ==> i == j
  {
  }

  /** The shape of every generated identifier. */
  predicate IsPasteId(id: string) {
    |id| == IdLength && forall k :: 0 <= k < |id| ==> IsAlphanumeric(id[k])
  }

  /**
   * The identifier `create_paste` builds: the first seven draws of the
   * sampler, each mapped to its character. Later draws are never used.
   */
  function NewId(draws: seq<AlphabetIndex>): (id: string)
    requires |draws| >= IdLength
    ensures IsPasteId(id)
    ensures '.' !in id
    ensures forall k :: 0 <= k < IdLength ==> AlphabetIndexOf(id[k]) == draws[k]
  {
    seq(IdLength, k requires 0 <= k < IdLength => AlphabetChar(draws[k]))
  }

  /** The draws that make the sampler produce `id`. */
  function DrawsFor(id: string): (draws: seq<AlphabetIndex>)
    requires IsPasteId(id)
    ensures |draws| == IdLength
  {
    seq(IdLength, k requires 0 <= k < IdLength => AlphabetIndexOf(id[k]))
  }

  /**
   * Generation is a bijection between seven draws and identifiers of the
   * right shape: every such identifier can come out, and from exactly one
   * choice of the draws that are used.
   */
  lemma NewIdBijective(id: string, draws: seq<AlphabetIndex>)
    requires IsPasteId(id) && |draws| >= IdLength
    ensures NewId(DrawsFor(id)) == id
    ensures NewId(draws) == id <==> draws[..IdLength] == DrawsFor(id)
  {
  }

  /** `format!("{}.{}", id, language)`: the key a paste is stored under. */
  function StorageKey(id: string, language: string): string {
    id + "." + language
  }

  /**
   * Splits a key at its first `.`: what precedes it and what follows it.
   * A key without `.` yields the whole key and an empty language.
   */
  function SplitAtFirstDot(key: string): (parts: (string, string))
    ensures '.' !in parts.0
    ensures '.' in key ==> key == parts.0 + "." + parts.1
    ensures '.' !in key ==> parts == (key, "")
  {
    if |key| == 0 then ("", "")
    else if key[0] == '.' then ("", key[1..])
    else
      var (id, language) := SplitAtFirstDot(key[1..]);
      assert key == [key[0]] + key[1..];
      ([key[0]] + id, language)
  }

  /**
   * A key splits back into its parts whenever the identifier has no `.`,
   * whatever the language holds, dots included.
   */
  lemma {:induction false} StorageKeyRoundTrip(id: string, language: string)
    requires '.' !in id
    ensures SplitAtFirstDot(StorageKey(id, language)) == (id, language)
    decreases |id|
  {
    var key := StorageKey(id, language);
    if |id| == 0 {
      assert key == "." + language;
      assert key[1..] == language;
    } else {
      assert key[1..] == StorageKey(id[1..], language);
      StorageKeyRoundTrip(id[1..], language);
      assert [key[0]] + id[1..] == id;
    }
  }

  /**
   * The key of a generated identifier: `8 + |language|` characters, its first
   * `.` at index 7, and splitting there gives back the identifier and the
   * language verbatim.
   */
  lemma GeneratedKeyShape(draws: seq<AlphabetIndex>, language: string)
    requires |draws| >= IdLength
    ensures var key := StorageKey(NewId(draws), language);
      && |key| == 8 + |language|
      && key[IdLength] == '.'
      && '.' !in key[..IdLength]
      && key[IdLength + 1..] == language
      && SplitAtFirstDot(key) == (NewId(draws), language)
  {
    var key := StorageKey(NewId(draws), language);
    assert key[..IdLength] == NewId(draws);
    StorageKeyRoundTrip(NewId(draws), language);
  }

  /** Distinct (identifier, language) pairs never share a key. */
  lemma StorageKeyInjective(id1: string, language1: string, id2: string, language2: string)
    requires '.' !in id1 && '.' !in id2
    requires StorageKey(id1, language1) == StorageKey(id2, language2)
    ensures id1 == id2 && language1 == language2
  {
    StorageKeyRoundTrip(id1, language1);
    StorageKeyRoundTrip(id2, language2);
  }

  /** A language offered by the paste form that itself holds a `.`. */
  lemma DottedLanguageRoundTrip(draws: seq<AlphabetIndex>)
    requires |draws| >= IdLength
    ensures SplitAtFirstDot(StorageKey(NewId(draws), "config.ru")) == (NewId(draws), "config.ru")
  {
    StorageKeyRoundTrip(NewId(draws), "config.ru");
  }
}
