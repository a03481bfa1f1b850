/** makeTag: a random identifier over a 62-character alphabet. The random
    32-bit words that `crypto.getRandomValues` fills in are a parameter. */
module MakeTag {

  /** An element of a Uint32Array. */
  type Word = x: int | 0 <= x < 0x1_0000_0000

  /** The character at position `i` of the alphabet: a-z, then A-Z, then 0-9. */
  function AlphabetChar(i: int): (c: char)
    requires 0 <= i < 62
  {
    if i < 26 then ('a' as int + i) as char
    else if i < 52 then ('A' as int + (i - 26)) as char
    else ('0' as int + (i - 52)) as char
  }

  /** The 62-character alphabet of makeTag, built position by position;
      AlphabetIsTheLiteral shows it is the string the source spells out. */
  function Alphabet(): (s: string)
    ensures |s| == 62 && forall i :: 0 <= i < 62 ==> s[i] == AlphabetChar(i)
  {
    seq(62, AlphabetChar)
  }

  const TAG_CHARS: string := Alphabet()

  predicate IsAlphaNumeric(c: char)
  {
    ('a' <= c <= 'z') || ('A' <= c <= 'Z') || ('0' <= c <= '9')
  }

  /** `Array.from(arr, (x) => chars[x % chars.length]).join("")`. */
  function MakeTag(words: seq<Word>): (tag: string)
    ensures |tag| == |words|
  {
    if |words| == 0 then ""
    else MakeTag(words[..|words| - 1]) + [TAG_CHARS[words[|words| - 1] % |TAG_CHARS|]]
  }

  /** The alphabet is the lower-case letters, then the upper-case letters,
      then the digits, each in order: the literal of makeTag. */
  lemma AlphabetIsTheLiteral()
    ensures TAG_CHARS == "abcdefghijklmnopqrstuvwxyz" + "ABCDEFGHIJKLMNOPQRSTUVWXYZ" + "0123456789"
  {
    assert TAG_CHARS[..26] == "abcdefghijklmnopqrstuvwxyz";
    assert TAG_CHARS[26..52] == "ABCDEFGHIJKLMNOPQRSTUVWXYZ";
    assert TAG_CHARS[52..] == "0123456789";
    assert TAG_CHARS == TAG_CHARS[..26] + TAG_CHARS[26..52] + TAG_CHARS[52..];
  }

  /** Every character of the alphabet is a letter or a digit. */
  lemma AlphabetIsAlphaNumeric(i: nat)
    requires i < |TAG_CHARS|
    ensures IsAlphaNumeric(TAG_CHARS[i])
  {
  }

  /** The position of a letter or digit in the alphabet. */
  function AlphabetIndex(c: char): (i: nat)
    requires IsAlphaNumeric(c)
    ensures i < |TAG_CHARS| && TAG_CHARS[i] == c
  {
    if 'a' <= c <= 'z' then c as int - 'a' as int
    else if 'A' <= c <= 'Z' then 26 + (c as int - 'A' as int)
    else 52 + (c as int - '0' as int)
  }

  /** Each character of a tag is the alphabet entry its word selects: a
      letter or a digit. */
  lemma {:induction false} MakeTagIsAlphaNumeric(words: seq<Word>)
    ensures forall i :: 0 <= i < |words| ==> MakeTag(words)[i] == TAG_CHARS[words[i] % 62]
    ensures forall i :: 0 <= i < |words| ==> IsAlphaNumeric(MakeTag(words)[i])
  {
    if |words| > 0 {
      var init := words[..|words| - 1];
      MakeTagIsAlphaNumeric(init);
      forall i | 0 <= i < |words|
        ensures IsAlphaNumeric(MakeTag(words)[i])
      {
        AlphabetIsAlphaNumeric(words[i] % 62);
      }
    }
  }

  /** Words that select the given letters and digits. */
  function WordsFor(target: string): (words: seq<Word>)
    requires forall i :: 0 <= i < |target| ==> IsAlphaNumeric(target[i])
    ensures |words| == |target|
  {
    if |target| == 0 then []
    else WordsFor(target[..|target| - 1]) + [AlphabetIndex(target[|target| - 1])]
  }

  /** A character's alphabet index, taken as a word, selects that character. */
  lemma IndexSelectsItself(c: char)
    requires IsAlphaNumeric(c)
    ensures TAG_CHARS[AlphabetIndex(c) % 62] == c
  {
    var w := AlphabetIndex(c);
    assert w % 62 == w;
  }

  lemma MakeTagSnoc(ws: seq<Word>, w: Word)
    ensures MakeTag(ws + [w]) == MakeTag(ws) + [TAG_CHARS[w % 62]]
  {
    assert (ws + [w])[..|ws|] == ws;
  }

  /** Conversely every letter-and-digit string is the tag of some words, so
      no tag over the alphabet is out of reach. */
  lemma {:induction false} EveryAlphaNumericTagIsReachable(target: string)
    requires forall i :: 0 <= i < |target| ==> IsAlphaNumeric(target[i])
    ensures MakeTag(WordsFor(target)) == target
  {
    if |target| > 0 {
      var init := target[..|target| - 1];
      EveryAlphaNumericTagIsReachable(init);
      TagOfWordsForSnoc(target);
      assert target == init + [target[|target| - 1]];
    }
  }

  /** The words for a string select its last character last. */
  lemma TagOfWordsForSnoc(target: string)
    requires |target| > 0
    requires forall i :: 0 <= i < |target| ==> IsAlphaNumeric(target[i])
    ensures MakeTag(WordsFor(target)) == MakeTag(WordsFor(target[..|target| - 1])) + [target[|target| - 1]]
  {
    var init := target[..|target| - 1];
    var last := target[|target| - 1];
    var w: Word := AlphabetIndex(last);
    assert WordsFor(target) == WordsFor(init) + [w];
    MakeTagSnoc(WordsFor(init), w);
    IndexSelectsItself(last);
  }

  /** Only each word's residue modulo the alphabet size matters. */
  lemma {:induction false} MakeTagDependsOnResidues(a: seq<Word>, b: seq<Word>)
    requires |a| == |b|
    requires forall i :: 0 <= i < |a| ==> a[i] % 62 == b[i] % 62
    ensures MakeTag(a) == MakeTag(b)
  {
    if |a| > 0 {
      MakeTagDependsOnResidues(a[..|a| - 1], b[..|b| - 1]);
    }
  }
}
