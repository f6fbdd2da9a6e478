/**
 * The pure rules of the command line's storage (saffron-cli `storage.rs`):
 * the file name a collection is kept under, and the history list, newest
 * first and capped at 100 entries. Reading and writing the files is not
 * part of this model.
 */
module Storage {
  import opened Strings
  import opened History

  /** The chars `sanitize_filename` rewrites: `/ \ : * ? " < > |`. */
  predicate Unsafe(c: char) {
    c == '/' || c == '\\' || c == ':' || c == '*' || c == '?' || c == '"' || c == '<' || c == '>' || c == '|'
  }

  /** `sanitize_filename`: each unsafe char becomes `_`, every other char stays where it is. */
  function SanitizeFilename(name: string): (r: string)
    ensures |r| == |name|
    ensures forall i :: 0 <= i < |name| ==> r[i] == (if Unsafe(name[i]) then '_' else name[i])
    ensures forall i :: 0 <= i < |r| ==> !Unsafe(r[i])
  {
    if |name| == 0 then ""
    else [if Unsafe(name[0]) then '_' else name[0]] + SanitizeFilename(name[1..])
  }

  /** Sanitising twice is sanitising once. */
  lemma SanitizeIdempotent(name: string)
    ensures SanitizeFilename(SanitizeFilename(name)) == SanitizeFilename(name)
  {
    var once := SanitizeFilename(name);
    assert forall i :: 0 <= i < |once| ==> SanitizeFilename(once)[i] == once[i];
  }

  /** A name without unsafe chars is its own file name stem. */
  lemma SanitizeSafe(name: string)
    requires forall i :: 0 <= i < |name| ==> !Unsafe(name[i])
    ensures SanitizeFilename(name) == name
  {
    assert forall i :: 0 <= i < |name| ==> SanitizeFilename(name)[i] == name[i];
  }

  /**
   * The file name `save_collection`, `load_collection` and `delete_collection`
   * all use for a collection called `name`.
   */
  function CollectionFileName(name: string): (r: string)
    ensures |r| == |name| + 5 && r[..|name|] == SanitizeFilename(name) && r[|name|..] == ".json"
    ensures forall i :: 0 <= i < |r| ==> !Unsafe(r[i])
  {
    SanitizeFilename(name) + ".json"
  }

  /** Names that differ only in unsafe chars at the same places share a file. */
  lemma CollectionFileNameShared(a: string, b: string)
    requires |a| == |b|
    requires forall i :: 0 <= i < |a| ==> a[i] == b[i] || (Unsafe(a[i]) && Unsafe(b[i]))
    ensures CollectionFileName(a) == CollectionFileName(b)
  {
    assert SanitizeFilename(a) == SanitizeFilename(b);
  }

  const HistoryLimit := 100

  /** The list `save_history_entry` writes back: the new entry first, then the old ones, cut to the limit. */
  function Recorded(history: seq<HistoryEntry>, entry: HistoryEntry): (r: seq<HistoryEntry>)
    ensures |r| == if |history| + 1 > HistoryLimit then HistoryLimit else |history| + 1
    ensures r[0] == entry && r[1..] == history[..|r| - 1]
  {
    var h := [entry] + history;
    if |h| > HistoryLimit then h[..HistoryLimit] else h
  }

  /**
   * The list update inside `save_history_entry`: `insert(0, entry)` on the
   * loaded list, then `truncate(100)` when it has grown past the limit.
   */
  method RecordEntry(history: seq<HistoryEntry>, entry: HistoryEntry) returns (r: seq<HistoryEntry>)
    ensures r == Recorded(history, entry)
  {
    r := history;
    r := [entry] + r;
    if |r| > HistoryLimit {
      r := r[..HistoryLimit];
    }
  }

  /** `es` newest first. */
  function Reversed(es: seq<HistoryEntry>): (r: seq<HistoryEntry>)
    ensures |r| == |es|
  {
    if |es| == 0 then [] else [es[|es| - 1]] + Reversed(es[..|es| - 1])
  }

  /** The history after recording `es`, one after the other. */
  function RecordedAll(history: seq<HistoryEntry>, es: seq<HistoryEntry>): seq<HistoryEntry>
    decreases |es|
  {
    if |es| == 0 then history else Recorded(RecordedAll(history, es[..|es| - 1]), es[|es| - 1])
  }

  /**
   * However many entries are recorded, the history is the newest 100 of all
   * it has seen, newest first: the recorded ones in reverse, then the old list.
   */
  lemma {:induction false} RecordedAllNewest(history: seq<HistoryEntry>, es: seq<HistoryEntry>)
    requires |history| <= HistoryLimit
    ensures var all := Reversed(es) + history;
      RecordedAll(history, es) == all[..if |all| > HistoryLimit then HistoryLimit else |all|]
  {
    if |es| > 0 {
      var init, last := es[..|es| - 1], es[|es| - 1];
      RecordedAllNewest(history, init);
      RecordedCut(Reversed(init) + history, last);
    } else {
      assert Reversed(es) + history == history;
    }
  }

  /** Recording onto a list cut to the limit is recording onto the whole list, then cutting. */
  lemma RecordedCut(xs: seq<HistoryEntry>, e: HistoryEntry)
    ensures Recorded(xs[..if |xs| > HistoryLimit then HistoryLimit else |xs|], e) ==
      ([e] + xs)[..if |xs| + 1 > HistoryLimit then HistoryLimit else |xs| + 1]
  {
    var cut := xs[..if |xs| > HistoryLimit then HistoryLimit else |xs|];
    var r := Recorded(cut, e);
    var expected := ([e] + xs)[..if |xs| + 1 > HistoryLimit then HistoryLimit else |xs| + 1];
    assert |r| == |expected|;
    assert forall i :: 0 < i < |r| ==> r[i] == r[1..][i - 1] == cut[i - 1] == xs[i - 1] == expected[i];
  }
}
