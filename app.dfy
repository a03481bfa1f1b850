/** The document id the application derives from a title. */
module App {

  import opened Strings

  /** The id length cap of `substring(0, 15)`. */
  const MAX_ID_LENGTH: nat := 15

  /** `s.substring(0, n)` for a non-negative `n`. */
  function Prefix(s: string, n: nat): (p: string)
    ensures |p| == if |s| < n then |s| else n
  {
    if |s| < n then s else s[..n]
  }

  /** onTitleChange: the words of the title (split on single spaces) joined
      with "-", cut to fifteen characters. */
  function OnTitleChange(title: string): (id: string)
    ensures |id| <= MAX_ID_LENGTH
  {
    Prefix(Join(Split(title, ' '), "-"), MAX_ID_LENGTH)
  }

  /** The id is the title with every space replaced by "-", cut to fifteen characters. */
  lemma OnTitleChangeIsReplacedPrefix(title: string)
    ensures OnTitleChange(title) == Prefix(Replace(title, ' ', '-'), MAX_ID_LENGTH)
    ensures |OnTitleChange(title)| == if |title| < MAX_ID_LENGTH then |title| else MAX_ID_LENGTH
  {
    JoinSplit(title, ' ', '-');
  }

  /** The id contains no space. */
  lemma OnTitleChangeHasNoSpace(title: string)
    ensures ' ' !in OnTitleChange(title)
  {
    OnTitleChangeIsReplacedPrefix(title);
    var r := Replace(title, ' ', '-');
    var id := OnTitleChange(title);
    forall k | 0 <= k < |id|
      ensures id[k] != ' '
    {
      assert id[k] == r[k];
    }
  }

  /** A title of at most fifteen characters without spaces is its own id. */
  lemma ShortSpacelessTitleIsItsId(title: string)
    requires |title| <= MAX_ID_LENGTH && ' ' !in title
    ensures OnTitleChange(title) == title
  {
    OnTitleChangeIsReplacedPrefix(title);
    var r := Replace(title, ' ', '-');
    assert forall k :: 0 <= k < |title| ==> r[k] == title[k];
    assert r == title;
  }
}
