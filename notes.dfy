/** The index arithmetic of the notes pager, `NotesView.index_setup` in
    src/salamander/notes.py. */
module Notes {
  import Arith

  /** A stored note: its text and its creation time as an ISO-8601 string. */
  datatype Note = Note(content: string, createdAt: string)

  /** What `index_setup` returns: the note shown, the three button flags,
      and the creation time string, which doubles as the note's key. */
  datatype NotePage = NotePage(
    index: int, content: string,
    firstDisabled: bool, lastDisabled: bool, prevNextDisabled: bool, timestamp: string)

  /** `NotesView.index_setup(items, index)`. An empty list would divide by
      zero; the only caller returns before that. */
  function IndexSetup(items: seq<Note>, index: int): (p: NotePage)
    requires |items| > 0
    ensures 0 <= p.index < |items| && (index - p.index) % |items| == 0
    ensures 0 <= index < |items| ==> p.index == index
    ensures p.content == items[p.index].content && p.timestamp == items[p.index].createdAt
    ensures p.firstDisabled <==> p.index == 0
    ensures p.lastDisabled <==> p.index == |items| - 1
    ensures p.prevNextDisabled <==> |items| == 1
  {
    var ln := |items|;
    var i := index % ln;
    Arith.ModCongruent(index, ln);
    var item := items[i];
    NotePage(i, item.content, i == 0, i == ln - 1, ln == 1, item.createdAt)
  }

  /** Paging past either end wraps to the other end. */
  lemma IndexWraps(items: seq<Note>)
    requires |items| > 0
    ensures IndexSetup(items, -1).index == |items| - 1 && IndexSetup(items, -1).lastDisabled
    ensures IndexSetup(items, |items|).index == 0 && IndexSetup(items, |items|).firstDisabled
  {
    Arith.RemainderUnique(|items|, -1, |items| - 1);
    Arith.RemainderUnique(|items|, |items|, 0);
  }
}
