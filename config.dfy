/**
 * `Config` of dev_cleaner_core: the filter list with its built-in default,
 * and the `Display` written through the `display_field!` macro.
 * Loading and storing the configuration file are not part of this model.
 */
module Config {
  import Text
  import Filters

  datatype Config = Config(filters: Filters.Filters)

  /** The five directory names every configuration starts from. */
  const DefaultFilterNames: seq<string> := ["target", "node_modules", "dist", "out", "__pycache__"]

  /** `Config::default`: the default names collected into a `Filters`. */
  function Default(): Config
  {
    Config(Filters.Collect(DefaultFilterNames))
  }

  /** `Config::new`. */
  function New(): Config
  {
    Default()
  }

  /** The default filters are the five names, in their order, with no repeats. */
  lemma DefaultFilters()
    ensures Default().filters.entries == ["target", "node_modules", "dist", "out", "__pycache__"]
    ensures |Default().filters.entries| == 5
    ensures forall i, j :: 0 <= i < j < 5 ==> Default().filters.entries[i] != Default().filters.entries[j]
  {
    Filters.CollectEntries(DefaultFilterNames);
  }

  lemma NewIsDefault()
    ensures New() == Default()
  {
  }

  /** `display_field!(f, name, value)`: `name:` on one line, then the value followed by an empty line. */
  function DisplayField(name: string, value: string): string
  {
    name + ":\n" + value + "\n" + "\n"
  }

  /** `impl Display for Config`. */
  function Display(c: Config): string
  {
    DisplayField("Filters", Filters.Display(c.filters))
  }

  /** The text is the header line, the filter list's lines, and two empty lines, each ended by '\n'. */
  lemma DisplayIsUnlines(c: Config)
    ensures Display(c) == Text.Unlines(["Filters:"] + Filters.DisplayLines(c.filters) + ["", ""])
  {
    var body := Filters.DisplayLines(c.filters);
    Text.UnlinesAppend(["Filters:"], body);
    Text.UnlinesAppend(["Filters:"] + body, ["", ""]);
    assert Text.Unlines(["Filters:"]) == "Filters:\n";
    assert Text.Unlines(["", ""]) == "\n\n";
  }

  /** Read back line by line: the header, the filter list's lines, then two empty lines. */
  lemma DisplayReadsBack(c: Config)
    requires Filters.EntriesOnOneLine(c.filters)
    ensures Text.SplitLines(Display(c)) == ["Filters:"] + Filters.DisplayLines(c.filters) + ["", ""]
  {
    var body := Filters.DisplayLines(c.filters);
    Filters.DisplayReadsBack(c.filters);
    assert Text.OneLineEach(["Filters:"]) && Text.OneLineEach(["", ""]);
    Text.OneLineEachAppend(["Filters:"], body);
    Text.OneLineEachAppend(["Filters:"] + body, ["", ""]);
    DisplayIsUnlines(c);
    Text.SplitUnlines(["Filters:"] + body + ["", ""]);
  }
}
