/**
 * `Filters` of dev_cleaner_core: an ordered list of exact directory names,
 * with its conversions and its line-oriented `Display`.
 */
module Filters {
  import Text

  /** The `Filters(Vec<String>)` newtype; order and duplicates are kept. */
  datatype Filters = Filters(entries: seq<string>)

  /** `Filters::new`. */
  function New(values: seq<string>): Filters
  {
    Filters(values)
  }

  /** `FromIterator<String>`: collects the items in iteration order. */
  function Collect(items: seq<string>): Filters
  {
    if items == [] then Filters([]) else Push(Collect(items[..|items| - 1]), items[|items| - 1])
  }

  /** Both `IntoIterator` impls: the stored entries, front to back. */
  function Iterate(f: Filters): seq<string>
  {
    f.entries
  }

  /** `Vec::push` through `DerefMut`. */
  function Push(f: Filters, pattern: string): (r: Filters)
    ensures |r.entries| == |f.entries| + 1
    ensures r.entries[..|f.entries|] == f.entries && r.entries[|f.entries|] == pattern
  {
    Filters(f.entries + [pattern])
  }

  /** `Vec::retain(|p| p != pattern)` through `DerefMut`. */
  function Retain(f: Filters, pattern: string): Filters
  {
    Filters(RemoveAll(f.entries, pattern))
  }

  /** The entries different from `pattern`, in their original order. */
  function RemoveAll(s: seq<string>, pattern: string): (r: seq<string>)
    ensures pattern !in r
    ensures multiset(r) == multiset(s)[pattern := 0]
    ensures pattern !in s ==> r == s
  {
    if s == [] then []
    else
      var init := s[..|s| - 1];
      var last := s[|s| - 1];
      assert s == init + [last];
      RemoveAll(init, pattern) + (if last == pattern then [] else [last])
  }

  /** `Filters::new` keeps the given list as it is, order and duplicates included. */
  lemma NewKeepsValues(values: seq<string>)
    ensures Iterate(New(values)) == values
  {
  }

  /** Collecting and iterating are inverse: the order of the items is the order of the entries. */
  lemma {:induction false} CollectIterateRoundTrip(items: seq<string>, f: Filters)
    ensures Iterate(Collect(items)) == items
    ensures Collect(Iterate(f)) == f
  {
    CollectEntries(items);
    CollectEntries(f.entries);
  }

  lemma {:induction false} CollectEntries(items: seq<string>)
    ensures Collect(items).entries == items
  {
    if items != [] {
      CollectEntries(items[..|items| - 1]);
    }
  }

  /** Removal acts on each entry independently: the kept entries stay in their order. */
  lemma {:induction false} RemoveAllConcat(a: seq<string>, b: seq<string>, pattern: string)
    ensures RemoveAll(a + b, pattern) == RemoveAll(a, pattern) + RemoveAll(b, pattern)
    decreases |b|
  {
    if b == [] {
      assert a + b == a;
    } else {
      var init, last := b[..|b| - 1], b[|b| - 1];
      var kept := if last == pattern then [] else [last];
      var ra, ri := RemoveAll(a, pattern), RemoveAll(init, pattern);
      ConcatInit(a, b);
      RemoveAllConcat(a, init, pattern);
      assert RemoveAll(a + b, pattern) == (ra + ri) + kept;
      assert RemoveAll(b, pattern) == ri + kept;
      assert (ra + ri) + kept == ra + (ri + kept);
    }
  }

  lemma ConcatInit(a: seq<string>, b: seq<string>)
    requires b != []
    ensures (a + b)[..|a + b| - 1] == a + b[..|b| - 1]
    ensures (a + b)[|a + b| - 1] == b[|b| - 1]
  {
  }

  /** Removing a pattern twice is removing it once. */
  lemma RemoveAllIdempotent(s: seq<string>, pattern: string)
    ensures RemoveAll(RemoveAll(s, pattern), pattern) == RemoveAll(s, pattern)
  {
  }

  const NoFiltersNotice := "(no filters specified)"
  const EditHint := "To edit use: {add | remove} <value>"

  /** One `writeln!(f, "\t- {entry}")` per entry. */
  function EntryLines(entries: seq<string>): (lines: seq<string>)
    ensures |lines| == |entries|
    ensures forall i :: 0 <= i < |entries| ==> lines[i] == "\t- " + entries[i]
  {
    if entries == [] then [] else ["\t- " + entries[0]] + EntryLines(entries[1..])
  }

  /** The lines `Display` writes: the entries or the empty notice, then the edit hint. */
  function DisplayLines(f: Filters): (lines: seq<string>)
    ensures |lines| == (if |f.entries| == 0 then 1 else |f.entries|) + 1
    ensures lines[|lines| - 1] == "\t- " + Text.Cyan(EditHint)
    ensures |f.entries| == 0 ==> lines[0] == "\t" + Text.Yellow(NoFiltersNotice)
    ensures forall i :: 0 <= i < |f.entries| ==> lines[i] == "\t- " + f.entries[i]
  {
    (if f.entries == [] then ["\t" + Text.Yellow(NoFiltersNotice)] else EntryLines(f.entries))
    + ["\t- " + Text.Cyan(EditHint)]
  }

  /** `impl Display for Filters`. */
  function Display(f: Filters): string
  {
    Text.Unlines(DisplayLines(f))
  }

  predicate EntriesOnOneLine(f: Filters)
  {
    forall i :: 0 <= i < |f.entries| ==> Text.NoNewline(f.entries[i])
  }

  /**
   * Read back line by line, the text is exactly DisplayLines: one line per
   * entry in stored order (or the notice), then the hint; max(1, n) + 1 lines.
   */
  lemma DisplayReadsBack(f: Filters)
    requires EntriesOnOneLine(f)
    ensures Text.OneLineEach(DisplayLines(f))
    ensures Text.SplitLines(Display(f)) == DisplayLines(f)
    ensures |Text.SplitLines(Display(f))| == (if |f.entries| == 0 then 1 else |f.entries|) + 1
  {
    var lines := DisplayLines(f);
    Text.ColoursKeepNewlines(EditHint);
    Text.ColoursKeepNewlines(NoFiltersNotice);
    forall i | 0 <= i < |lines|
      ensures Text.NoNewline(lines[i])
    {
      if i < |f.entries| {
        assert lines[i] == "\t- " + f.entries[i];
        assert Text.NoNewline(f.entries[i]);
      }
    }
    Text.SplitUnlines(lines);
  }

  /** Whatever the entries, the text ends with the hint line. */
  lemma DisplayEndsWithHint(f: Filters)
    ensures var s := Display(f); var h := "\t- " + Text.Cyan(EditHint) + "\n";
      |s| >= |h| && s[|s| - |h|..] == h
  {
    var lines := DisplayLines(f);
    assert lines == lines[..|lines| - 1] + [lines[|lines| - 1]];
    Text.UnlinesEndsWith(lines[..|lines| - 1], lines[|lines| - 1]);
  }
}
