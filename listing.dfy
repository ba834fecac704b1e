/**
 * The `list host` command: one table row per `Host` block of the
 * configuration, with the columns `host`, `hostname`, `user` and
 * `identityfile`.
 */
module HostListing {
  import opened Wrappers
  import opened HostBlock
  import opened ConfigParser
  import Shlex

  /**
   * A table cell as the command hands it on: a string, a list of strings, or
   * `None` (a missing setting and the `ProxyCommand none` marker alike).
   */
  datatype Cell = Str(text: string) | Strs(items: seq<string>) | Nil

  /** One row of the table. */
  datatype Row = Row(host: seq<string>, hostname: Cell, user: Cell, identityfile: Cell)

  const HostNameKey: string := "hostname"
  const UserKey: string := "user"
  const IdentityFileKey: string := "identityfile"

  /** `config.get(key)`: the stored value, or `None` when the key is missing. */
  function Get(config: map<string, Value>, key: string): Cell
  {
    if key !in config then Nil
    else
      match config[key]
      case Single(text) => Str(text)
      case Multi(items) => Strs(items)
      case NoneMarker => Nil
  }

  /** Python truth: a non-empty string or list; `None` is false. */
  predicate Truthy(c: Cell)
  {
    match c
    case Str(text) => text != []
    case Strs(items) => items != []
    case Nil => false
  }

  /** The row of one block: `hostname` falls back to the host patterns (`get('hostname') or host`). */
  function HostRow(b: Block): (r: Row)
    ensures r.host == b.host
    ensures r.hostname == if Truthy(Get(b.config, HostNameKey)) then Get(b.config, HostNameKey) else Strs(b.host)
    ensures r.user == Get(b.config, UserKey) && r.identityfile == Get(b.config, IdentityFileKey)
    ensures WellShaped(b.config) ==> (r.hostname.Str? && r.hostname.text != []) || r.hostname == Strs(b.host)
  {
    var hostname := Get(b.config, HostNameKey);
    Row(b.host,
        if Truthy(hostname) then hostname else Strs(b.host),
        Get(b.config, UserKey),
        Get(b.config, IdentityFileKey))
  }

  function RowsOf(blocks: seq<Block>): (rows: seq<Row>)
    ensures |rows| == |blocks|
    ensures forall k :: 0 <= k < |blocks| ==> rows[k] == HostRow(blocks[k])
  {
    if blocks == [] then [] else [HostRow(blocks[0])] + RowsOf(blocks[1..])
  }

  /** The rows of the listing: every block but the first (the implicit `*` block). */
  function HostRows(blocks: seq<Block>): (rows: seq<Row>)
    ensures |rows| == if blocks == [] then 0 else |blocks| - 1
    ensures forall k :: 0 <= k < |rows| ==> rows[k] == HostRow(blocks[k + 1])
    ensures forall k :: 0 <= k < |rows| ==> rows[k].host == blocks[k + 1].host
  {
    if blocks == [] then [] else RowsOf(blocks[1..])
  }

  // ---------------------------------------------------------------------
  // Reference: the row read off a section's setting lines

  /** The first argument given, unquoted, or `None` when there is none. */
  function FirstArgument(values: seq<string>): (c: Cell)
    ensures c.Nil? <==> values == []
  {
    if values == [] then Nil else Str(Unquote(values[0]))
  }

  /**
   * The row a section should list: `hostname` is the first `HostName`
   * argument unless there is none or it is empty, in which case it is the
   * host patterns; `user` is the first `User` argument; `identityfile` is
   * every `IdentityFile` argument, in order.
   */
  function ExpectedRow(s: Section): Row
  {
    var hostname := FirstArgument(ValuesOf(s.settings, HostNameKey));
    var ids := ValuesOf(s.settings, IdentityFileKey);
    Row(s.host,
        if hostname.Str? && hostname.text != [] then hostname else Strs(s.host),
        FirstArgument(ValuesOf(s.settings, UserKey)),
        if ids == [] then Nil else Strs(UnquoteAll(ids)))
  }

  /** The cell of a single-valued setting is its first argument, or `None`. */
  lemma FirstArgumentCell(settings: seq<(string, string)>, key: string)
    requires key !in MultiValuedKeys && key != ProxyCommandKey
    ensures Get(Build(settings), key) == FirstArgument(ValuesOf(settings, key))
  {
    BuildKeys(settings, key);
    if ValuesOf(settings, key) != [] {
      FirstValueWins(settings, key);
    }
  }

  /** A block's row is the row its setting lines call for. */
  lemma SectionRow(s: Section)
    ensures HostRow(ToBlock(s)) == ExpectedRow(s)
  {
    FirstArgumentCell(s.settings, HostNameKey);
    FirstArgumentCell(s.settings, UserKey);
    BuildKeys(s.settings, IdentityFileKey);
    if ValuesOf(s.settings, IdentityFileKey) != [] {
      MultiValuesAccumulate(s.settings, IdentityFileKey);
    }
  }

  /** The listing of the blocks of some sections: a row per section after the first. */
  lemma SectionRows(sections: seq<Section>)
    requires sections != []
    ensures var rows := HostRows(ToBlocks(sections));
      |rows| == |sections| - 1
      && forall k :: 0 <= k < |rows| ==> rows[k] == ExpectedRow(sections[k + 1])
  {
    var blocks := ToBlocks(sections);
    var rows := HostRows(blocks);
    assert rows == RowsOf(blocks[1..]);
    forall k | 0 <= k < |rows|
      ensures rows[k] == ExpectedRow(sections[k + 1])
    {
      assert rows[k] == HostRow(blocks[k + 1]);
      SectionRow(sections[k + 1]);
    }
  }

  /**
   * Listing the hosts of a file whose every line is well formed (so that
   * it reads without error) gives one row per
   * `Host` line, in the order of the file; each row's `host` is that line's
   * argument split into patterns, and its other cells are those its setting
   * lines call for.
   */
  lemma ListedHosts(lines: seq<string>)
    requires AllWellFormed(Directives(lines))
    ensures Parse(lines).Ok?
    ensures Parse(lines).Ok? &&
      var ds := Directives(lines); var rows := HostRows(Parse(lines).value);
      |rows| == |HostValues(ds)|
      && (forall k :: 0 <= k < |rows| ==> Shlex.Split(HostValues(ds)[k]) == Some(rows[k].host))
      && (forall k :: 0 <= k < |rows| ==> rows[k] == ExpectedRow(Sections(ds, Section(["*"], []))[k + 1]))
  {
    ParseShape(lines);
    SectionRows(Sections(Directives(lines), Section(["*"], [])));
  }
}
